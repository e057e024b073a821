/**
 * The word-level scanner: a left-to-right pass that emits URL, Email, Space,
 * Number, Word, Punctuation and Symbol tokens. Each sub-scanner is a spec
 * function (what it consumes) and a loop proved equal to it; the main loop
 * keeps the tiling invariant, so the tokens cover the input exactly.
 */
module TokenizerScanner {
  import opened Wrappers
  import opened Unicode
  import opened TokenizerTypes

  predicate NotSpace(c: char) { !IsSpace(c) }
  predicate IsDot(c: char) { c == '.' }
  predicate IsHyphen(c: char) { c == '-' }
  predicate LetterOrDigit(c: char) { IsLetter(c) || IsDigit(c) }

  /** Runes allowed in an email's local part: ASCII letters, digits and . _ % + -. */
  predicate IsEmailLocalChar(r: char) {
    IsAsciiLetter(r) || IsAsciiDigit(r) || r == '.' || r == '_' || r == '%' || r == '+' || r == '-'
  }

  /** Runes allowed in an email's domain: ASCII letters, digits, . and -. */
  predicate IsEmailDomainChar(r: char) {
    IsAsciiLetter(r) || IsAsciiDigit(r) || r == '.' || r == '-'
  }

  predicate IsAllAlpha(s: string) { forall k :: 0 <= k < |s| ==> IsAsciiLetter(s[k]) }

  /** The one trailing mark a URL gives up. */
  predicate IsUrlTrail(r: char) { r == '.' || r == ',' || r == '!' || r == '?' }

  /** Advances over the run of runes satisfying p. */
  method ScanForward(s: string, j: nat, p: char -> bool) returns (i: nat)
    requires j <= |s|
    ensures i == RunEnd(s, j, p)
  {
    i := j;
    while i < |s| && p(s[i])
      invariant j <= i <= |s|
      invariant RunEnd(s, j, p) == RunEnd(s, i, p)
    {
      i := i + 1;
    }
  }

  /** Backs up over the run of runes satisfying p. */
  method ScanBackward(s: string, j: nat, p: char -> bool) returns (i: nat)
    requires j <= |s|
    ensures i == RunStart(s, j, p)
  {
    i := j;
    while i > 0 && p(s[i - 1])
      invariant i <= j
      invariant RunStart(s, j, p) == RunStart(s, i, p)
    {
      i := i - 1;
    }
  }

  /** No rune is both white space and a letter, digit or punctuation mark. */
  lemma SpaceIsNothingElse(c: char)
    requires IsSpace(c)
    ensures !IsLetter(c) && !IsDigit(c) && !IsPunct(c)
  {
  }

  // ---------------------------------------------------------------- URL

  /** The length of an http:// (7) or https:// (8) prefix, in any letter case, or 0; only checked when 8 runes remain. */
  function UrlPrefixLen(rest: string): (n: nat)
    ensures n == 0 || n == 7 || n == 8
    ensures n > 0 ==> |rest| >= 8
  {
    if |rest| >= 8 && (rest[0] == 'h' || rest[0] == 'H') && (rest[1] == 't' || rest[1] == 'T')
       && (rest[2] == 't' || rest[2] == 'T') && (rest[3] == 'p' || rest[3] == 'P') then
      if (rest[4] == 's' || rest[4] == 'S') && rest[5] == ':' && rest[6] == '/' && rest[7] == '/' then 8
      else if rest[4] == ':' && rest[5] == '/' && rest[6] == '/' then 7
      else 0
    else 0
  }

  /**
   * scanURL: after the protocol, everything up to white space, less one
   * trailing . , ! or ?; None unless something remains after the protocol.
   */
  function UrlEnd(s: string, pos: nat): (r: Option<nat>)
    requires pos <= |s|
    ensures r.Some? ==> UrlPrefixLen(s[pos..]) > 0 && pos + UrlPrefixLen(s[pos..]) < r.value <= |s|
    ensures r.Some? ==> forall k :: pos <= k < r.value ==> !IsSpace(s[k])
    ensures r.Some? ==>
      r.value == |s| || IsSpace(s[r.value])
      || (IsUrlTrail(s[r.value]) && (r.value + 1 == |s| || IsSpace(s[r.value + 1])))
  {
    var pl := UrlPrefixLen(s[pos..]);
    if pl == 0 || |s| - pos <= pl then None
    else
      var e0 := RunEnd(s, pos + pl, NotSpace);
      var e := if e0 > pos + pl && IsUrlTrail(s[e0 - 1]) then e0 - 1 else e0;
      if e <= pos + pl then None else Some(e)
  }

  method ScanURL(s: string, pos: nat) returns (end: nat, ok: bool)
    requires pos <= |s|
    ensures ok == UrlEnd(s, pos).Some?
    ensures ok ==> end == UrlEnd(s, pos).value
  {
    var rest := s[pos..];
    var prefixLen := UrlPrefixLen(rest);
    if prefixLen == 0 || |rest| <= prefixLen {
      return 0, false;
    }
    end := pos + |rest|;
    var j := pos + prefixLen;
    while j < |s|
      invariant pos + prefixLen <= j <= |s|
      invariant RunEnd(s, pos + prefixLen, NotSpace) == RunEnd(s, j, NotSpace)
      invariant end == |s|
    {
      if IsSpace(s[j]) {
        end := j;
        break;
      }
      j := j + 1;
    }
    if end > pos + prefixLen && IsUrlTrail(s[end - 1]) {
      end := end - 1;
    }
    if end <= pos + prefixLen {
      return 0, false;
    }
    ok := true;
  }

  // -------------------------------------------------------------- Email

  /** The email's local part: back over local runes from the @, then past leading dots; None when empty. */
  function LocalStart(s: string, atPos: nat): (r: Option<nat>)
    requires atPos < |s| && s[atPos] == '@'
    ensures r.Some? ==> r.value < atPos && s[r.value] != '.'
    ensures r.Some? ==> forall k :: r.value <= k < atPos ==> IsEmailLocalChar(s[k])
  {
    var start0 := RunStart(s, atPos, IsEmailLocalChar);
    if start0 == atPos then None
    else
      var start := RunEnd(s, start0, IsDot);
      if start >= atPos then None else Some(start)
  }

  /** The end of the email's domain: forward over domain runes from the @, then back over trailing dots. */
  function DomainEnd(s: string, atPos: nat): (e: nat)
    requires atPos < |s| && s[atPos] == '@'
    ensures atPos < e <= |s|
    ensures forall k :: atPos < k < e ==> IsEmailDomainChar(s[k])
    ensures e == atPos + 1 || s[e - 1] != '.'
  {
    RunStart(s, RunEnd(s, atPos + 1, IsEmailDomainChar), IsDot)
  }

  /** A domain is valid when a dot after its first rune is followed, at the last dot, by two ASCII letters or more. */
  predicate ValidDomain(domain: string) {
    var lastDot := LastIndex(domain, '.');
    lastDot >= 1 && |domain| - lastDot - 1 >= 2 && IsAllAlpha(domain[lastDot + 1..])
  }

  /**
   * scanEmail around the @ at atPos: the local part runs back over local
   * runes, less its leading dots; the domain runs forward over domain runes,
   * less its trailing dots, and must hold a dot after its first rune followed
   * by a top-level domain of at least two ASCII letters.
   */
  function EmailSpan(s: string, atPos: nat): (r: Option<(nat, nat)>)
    requires atPos < |s| && s[atPos] == '@'
    ensures r.Some? ==> r.value.0 < atPos < r.value.1 <= |s|
    ensures r.Some? ==> s[r.value.0] != '.' && forall k :: r.value.0 <= k < atPos ==> IsEmailLocalChar(s[k])
    ensures r.Some? ==> forall k :: atPos < k < r.value.1 ==> IsEmailDomainChar(s[k])
  {
    var start := LocalStart(s, atPos);
    if start.None? then None
    else
      var end := DomainEnd(s, atPos);
      if !ValidDomain(s[atPos + 1..end]) then None
      else Some((start.value, end))
  }

  /** The domain of an email span has a dot after its first rune and ends in two ASCII letters or more. */
  lemma EmailHasTld(s: string, atPos: nat)
    requires atPos < |s| && s[atPos] == '@' && EmailSpan(s, atPos).Some?
    ensures var e := EmailSpan(s, atPos).value.1;
      exists d :: atPos + 1 < d < e - 2 && s[d] == '.' && forall k :: d < k < e ==> IsAsciiLetter(s[k])
  {
    var end := DomainEnd(s, atPos);
    var domain := s[atPos + 1..end];
    var lastDot := LastIndex(domain, '.');
    var d := atPos + 1 + lastDot;
    assert s[d] == domain[lastDot];
    var tld := domain[lastDot + 1..];
    forall k | d < k < end ensures IsAsciiLetter(s[k]) {
      assert s[k] == tld[k - d - 1];
    }
  }

  method ScanEmail(s: string, atPos: nat) returns (start: nat, end: nat, ok: bool)
    requires atPos < |s| && s[atPos] == '@'
    ensures ok == EmailSpan(s, atPos).Some?
    ensures ok ==> (start, end) == EmailSpan(s, atPos).value
  {
    start := ScanBackward(s, atPos, IsEmailLocalChar);
    if start == atPos {
      return 0, 0, false;
    }
    // leading dots; the @ stops the run
    start := ScanForward(s, start, IsDot);
    if start == atPos {
      return 0, 0, false;
    }
    assert LocalStart(s, atPos) == Some(start);
    end := ScanForward(s, atPos + 1, IsEmailDomainChar);
    // trailing dots; the @ stops the run
    end := ScanBackward(s, end, IsDot);
    assert end == DomainEnd(s, atPos);
    var domain := s[atPos + 1..end];
    var lastDot := LastIndex(domain, '.');
    if lastDot < 1 {
      return 0, 0, false;
    }
    var tld := domain[lastDot + 1..];
    if |tld| < 2 || !IsAllAlpha(tld) {
      return 0, 0, false;
    }
    ok := true;
  }

  // ------------------------------------------------------------- Number

  /** The thousand-separator groups: a dot, exactly three digits, then no fourth digit. */
  function DotGroupsEnd(s: string, i: nat): (k: nat)
    requires i <= |s|
    ensures i <= k <= |s|
    decreases |s| - i
  {
    if i < |s| && s[i] == '.' && i + 4 <= |s| && IsAsciiDigit(s[i + 1]) && IsAsciiDigit(s[i + 2])
       && IsAsciiDigit(s[i + 3]) && (i + 4 >= |s| || !IsAsciiDigit(s[i + 4]))
    then DotGroupsEnd(s, i + 4)
    else i
  }

  /** scanNumber: ASCII digits, then thousand groups, then a decimal comma when a digit follows it. */
  function NumberEnd(s: string, pos: nat): (k: nat)
    requires pos <= |s|
    ensures pos <= k <= |s|
    ensures pos < |s| && IsAsciiDigit(s[pos]) ==> pos < k
  {
    var i1 := RunEnd(s, pos, IsAsciiDigit);
    var i2 := DotGroupsEnd(s, i1);
    if i2 < |s| && s[i2] == ',' && i2 + 1 < |s| && IsAsciiDigit(s[i2 + 1])
    then RunEnd(s, i2 + 1, IsAsciiDigit)
    else i2
  }

  /** A dot inside a number is followed by exactly three digits. */
  predicate DotOK(s: string, m: nat)
    requires m < |s|
  {
    m + 4 <= |s| && IsAsciiDigit(s[m + 1]) && IsAsciiDigit(s[m + 2]) && IsAsciiDigit(s[m + 3])
    && (m + 4 == |s| || !IsAsciiDigit(s[m + 4]))
  }

  lemma {:induction false} DotGroupsShape(s: string, i: nat)
    requires i <= |s|
    ensures forall m :: i <= m < DotGroupsEnd(s, i) ==>
      IsAsciiDigit(s[m]) || (s[m] == '.' && DotOK(s, m) && m + 4 <= DotGroupsEnd(s, i))
    decreases |s| - i
  {
    if DotGroupsEnd(s, i) > i {
      DotGroupsShape(s, i + 4);
    }
  }

  /** What a number may hold at m: an ASCII digit, a thousands dot, or a decimal comma before a digit. */
  predicate NumberRune(s: string, m: nat, e: nat)
    requires m < |s|
  {
    IsAsciiDigit(s[m]) || (s[m] == '.' && DotOK(s, m) && m + 4 <= e)
    || (s[m] == ',' && m + 1 < e && e <= |s| && IsAsciiDigit(s[m + 1]))
  }

  /**
   * A number token holds ASCII digits, dots each followed by exactly three
   * digits, and commas each followed by a digit inside the token.
   */
  lemma NumberShape(s: string, pos: nat)
    requires pos <= |s|
    ensures forall m :: pos <= m < NumberEnd(s, pos) ==> NumberRune(s, m, NumberEnd(s, pos))
  {
    var e := NumberEnd(s, pos);
    var i1 := RunEnd(s, pos, IsAsciiDigit);
    var i2 := DotGroupsEnd(s, i1);
    DotGroupsShape(s, i1);
    forall m | pos <= m < e ensures NumberRune(s, m, e) {
      if m >= i2 {
        assert m == i2 || IsAsciiDigit(s[m]);
      }
    }
  }

  method ScanNumber(s: string, pos: nat) returns (tok: Token)
    requires pos <= |s|
    ensures tok == Token(s[pos..NumberEnd(s, pos)], pos, NumberEnd(s, pos), Number)
  {
    var i := pos;
    while i < |s| && IsAsciiDigit(s[i])
      invariant pos <= i <= |s|
      invariant RunEnd(s, pos, IsAsciiDigit) == RunEnd(s, i, IsAsciiDigit)
    {
      i := i + 1;
    }
    while i < |s| && s[i] == '.'
      invariant pos <= i <= |s|
      invariant DotGroupsEnd(s, RunEnd(s, pos, IsAsciiDigit)) == DotGroupsEnd(s, i)
      decreases |s| - i
    {
      if i + 4 <= |s| && IsAsciiDigit(s[i + 1]) && IsAsciiDigit(s[i + 2]) && IsAsciiDigit(s[i + 3]) {
        if i + 4 >= |s| || !IsAsciiDigit(s[i + 4]) {
          i := i + 4;
          continue;
        }
      }
      break;
    }
    if i < |s| && s[i] == ',' {
      if i + 1 < |s| && IsAsciiDigit(s[i + 1]) {
        i := i + 1;
        ghost var from := i;
        while i < |s| && IsAsciiDigit(s[i])
          invariant from <= i <= |s|
          invariant RunEnd(s, from, IsAsciiDigit) == RunEnd(s, i, IsAsciiDigit)
        {
          i := i + 1;
        }
      }
    }
    tok := Token(s[pos..i], pos, i, Number);
  }

  // --------------------------------------------------------------- Word

  /**
   * The extensions of a word: a single hyphen followed by a letter or digit
   * takes the following letter-or-digit run; an apostrophe between letters
   * takes the following letter run.
   */
  function WordExtend(s: string, pos: nat, i: nat): (k: nat)
    requires pos < i <= |s|
    ensures i <= k <= |s|
    decreases |s| - i
  {
    if i == |s| then i
    else if s[i] == '-' then
      if i + 1 < |s| && s[i + 1] != '-' && LetterOrDigit(s[i + 1])
      then WordExtend(s, pos, RunEnd(s, i + 1, LetterOrDigit))
      else i
    else if IsApostrophe(s[i]) then
      if i + 1 < |s| && IsLetter(s[i + 1]) && IsLetter(s[i - 1])
      then WordExtend(s, pos, RunEnd(s, i + 1, IsLetter))
      else i
    else i
  }

  /** scanWord from a letter: the letter-or-digit run, then its extensions. */
  function WordEnd(s: string, pos: nat): (k: nat)
    requires pos < |s| && IsLetter(s[pos])
    ensures pos < k <= |s|
  {
    WordExtend(s, pos, RunEnd(s, pos, LetterOrDigit))
  }

  /** What a word may hold at m: a letter or digit, a joining hyphen, or an apostrophe between letters. */
  predicate WordRune(s: string, m: nat, e: nat)
    requires m < |s|
  {
    LetterOrDigit(s[m])
    || (s[m] == '-' && 0 < m && m + 1 < e && e <= |s| && LetterOrDigit(s[m - 1]) && LetterOrDigit(s[m + 1]))
    || (IsApostrophe(s[m]) && 0 < m && m + 1 < e && e <= |s| && IsLetter(s[m - 1]) && IsLetter(s[m + 1]))
  }

  /** Extending past the run that ends at j keeps the word shape. */
  lemma JoinedRun(s: string, pos: nat, i: nat, j: nat)
    requires pos < i && i + 1 < j <= |s|
    requires forall m :: pos <= m < i ==> WordRune(s, m, i)
    requires WordRune(s, i, j)
    requires forall m :: i < m < j ==> LetterOrDigit(s[m])
    ensures forall m :: pos <= m < j ==> WordRune(s, m, j)
  {
    forall m | pos <= m < j ensures WordRune(s, m, j) {
      if m < i {
        assert WordRune(s, m, i);
      }
    }
  }

  lemma {:induction false} WordExtendShape(s: string, pos: nat, i: nat)
    requires pos < i <= |s| && LetterOrDigit(s[i - 1])
    requires forall m :: pos <= m < i ==> WordRune(s, m, i)
    ensures forall m :: pos <= m < WordExtend(s, pos, i) ==> WordRune(s, m, WordExtend(s, pos, i))
    decreases |s| - i
  {
    if i < |s| && s[i] == '-' && i + 1 < |s| && s[i + 1] != '-' && LetterOrDigit(s[i + 1]) {
      var j := RunEnd(s, i + 1, LetterOrDigit);
      JoinedRun(s, pos, i, j);
      WordExtendShape(s, pos, j);
    } else if i < |s| && s[i] != '-' && IsApostrophe(s[i]) && i + 1 < |s| && IsLetter(s[i + 1]) && IsLetter(s[i - 1]) {
      var j := RunEnd(s, i + 1, IsLetter);
      JoinedRun(s, pos, i, j);
      WordExtendShape(s, pos, j);
    }
  }

  /**
   * A word starts with a letter and holds only letters and digits, hyphens
   * between two letters-or-digits and apostrophes between two letters.
   */
  lemma WordShape(s: string, pos: nat)
    requires pos < |s| && IsLetter(s[pos])
    ensures forall m :: pos <= m < WordEnd(s, pos) ==> WordRune(s, m, WordEnd(s, pos))
  {
    WordExtendShape(s, pos, RunEnd(s, pos, LetterOrDigit));
  }

  method ConsumeWordOrDigitRun(s: string, pos: nat) returns (i: nat)
    requires pos <= |s|
    ensures i == RunEnd(s, pos, LetterOrDigit)
  {
    i := pos;
    while i < |s| && LetterOrDigit(s[i])
      invariant pos <= i <= |s|
      invariant RunEnd(s, pos, LetterOrDigit) == RunEnd(s, i, LetterOrDigit)
    {
      i := i + 1;
    }
  }

  /**
   * Where scanWord's loop at i goes on to: past a joining hyphen and the
   * letters or digits after it, past an apostrophe between letters and the
   * letters after it, or nowhere (i itself) where the word ends.
   */
  function JoinEnd(s: string, i: nat): (k: nat)
    requires 0 < i < |s|
    ensures i <= k <= |s|
  {
    if s[i] == '-' && i + 1 < |s| && s[i + 1] != '-' && LetterOrDigit(s[i + 1])
    then RunEnd(s, i + 1, LetterOrDigit)
    else if s[i] != '-' && IsApostrophe(s[i]) && i + 1 < |s| && IsLetter(s[i + 1]) && IsLetter(s[i - 1])
    then RunEnd(s, i + 1, IsLetter)
    else i
  }

  /** The word extends through each join, and stops where there is none. */
  lemma WordExtendJoin(s: string, pos: nat, i: nat)
    requires pos < i < |s|
    ensures JoinEnd(s, i) == i ==> WordExtend(s, pos, i) == i
    ensures JoinEnd(s, i) > i ==> WordExtend(s, pos, i) == WordExtend(s, pos, JoinEnd(s, i))
  {
  }

  /** One pass of scanWord's loop at i. */
  method WordJoin(s: string, i: nat) returns (j: nat)
    requires 0 < i < |s|
    ensures j == JoinEnd(s, i)
  {
    j := i;
    var r := s[i];
    if r == '-' {
      var next := i + 1;
      if next < |s| {
        var nr := s[next];
        if nr == '-' {
          return;
        }
        if LetterOrDigit(nr) {
          j := ConsumeWordOrDigitRun(s, next);
        }
      }
      return;
    }
    if IsApostrophe(r) {
      var next := i + 1;
      if next < |s| {
        var nr := s[next];
        if IsLetter(nr) {
          var pr := s[i - 1];
          if IsLetter(pr) {
            j := ScanForward(s, next, IsLetter);
          }
        }
      }
    }
  }

  method ScanWord(s: string, pos: nat) returns (tok: Token)
    requires pos < |s| && IsLetter(s[pos])
    ensures tok == Token(s[pos..WordEnd(s, pos)], pos, WordEnd(s, pos), TokenizerTypes.Word)
  {
    var i := ConsumeWordOrDigitRun(s, pos);
    while i < |s|
      invariant pos < i <= |s|
      invariant WordEnd(s, pos) == WordExtend(s, pos, i)
      decreases |s| - i
    {
      var j := WordJoin(s, i);
      WordExtendJoin(s, pos, i);
      if j == i {
        break;
      }
      i := j;
    }
    tok := Token(s[pos..i], pos, i, TokenizerTypes.Word);
  }

  // ------------------------------------------------------ Email trimming

  /** Token text lengths agree with their offsets. */
  predicate Measured(ts: seq<Token>) {
    forall k :: 0 <= k < |ts| ==> ts[k].start <= ts[k].end && |ts[k].text| == ts[k].end - ts[k].start
  }

  /**
   * trimTokensForEmail: drop the tokens that start at or after the email's
   * start, and cut a token that runs across it.
   */
  function TrimmedForEmail(ts: seq<Token>, emailStart: nat): (r: seq<Token>)
    requires Measured(ts)
    ensures |r| <= |ts| && Measured(r)
    ensures forall k :: 0 <= k < |r| ==>
      r[k].start == ts[k].start && r[k].ttype == ts[k].ttype && r[k].end <= ts[k].end && r[k].text <= ts[k].text
    decreases |ts|
  {
    if ts == [] then []
    else
      var last := ts[|ts| - 1];
      if last.start >= emailStart then TrimmedForEmail(ts[..|ts| - 1], emailStart)
      else if last.end > emailStart then
        ts[..|ts| - 1] + [Token(last.text[..emailStart - last.start], last.start, emailStart, last.ttype)]
      else ts
  }

  /** Trimming a tiling of s[..n] at an earlier offset leaves a tiling of s[..emailStart]. */
  lemma TilesMeasured(ts: seq<Token>, s: string, n: nat)
    requires Tiles(ts, s, n)
    ensures Measured(ts)
  {
    forall k | 0 <= k < |ts| ensures ts[k].start <= ts[k].end && |ts[k].text| == ts[k].end - ts[k].start {
      assert ts[k].text == s[ts[k].start..ts[k].end];
    }
  }

  /** Trimming a tiling of s[..n] at an earlier offset leaves a tiling of s[..emailStart]. */
  lemma {:induction false} TrimmedTiles(ts: seq<Token>, s: string, n: nat, emailStart: nat)
    requires Tiles(ts, s, n) && emailStart <= n
    ensures Measured(ts) && Tiles(TrimmedForEmail(ts, emailStart), s, emailStart)
    decreases |ts|
  {
    TilesMeasured(ts, s, n);
    if ts != [] {
      var last := ts[|ts| - 1];
      var init := ts[..|ts| - 1];
      TilesInit(ts, s, n);
      if last.start >= emailStart {
        TrimmedTiles(init, s, last.start, emailStart);
      } else if last.end > emailStart {
        assert last.text == s[last.start..last.end];
        assert last.text[..emailStart - last.start] == s[last.start..emailStart];
        TilesSnoc(init, s, last.start, emailStart, last.ttype);
      }
    }
  }

  method TrimTokensForEmail(tokens: seq<Token>, emailStart: nat) returns (r: seq<Token>)
    requires Measured(tokens)
    ensures r == TrimmedForEmail(tokens, emailStart)
  {
    r := tokens;
    while |r| > 0
      invariant Measured(r)
      invariant TrimmedForEmail(tokens, emailStart) == TrimmedForEmail(r, emailStart)
    {
      var last := r[|r| - 1];
      if last.start >= emailStart {
        r := r[..|r| - 1];
      } else if last.end > emailStart {
        r := r[..|r| - 1] + [Token(last.text[..emailStart - last.start], last.start, emailStart, last.ttype)];
        break;
      } else {
        break;
      }
    }
  }

  // ---------------------------------------------------------- Main loop

  /** The scanner's token types: Word to Email. */
  predicate ScannedType(t: int) { TokenizerTypes.Word <= t <= Email }

  /** A Space token holds only white space; any other token holds none. */
  predicate SpaceClassed(t: Token) {
    if t.ttype == Space then forall m :: 0 <= m < |t.text| ==> IsSpace(t.text[m])
    else forall m :: 0 <= m < |t.text| ==> !IsSpace(t.text[m])
  }

  /** No two Space tokens are neighbours. */
  predicate SpacesApart(ts: seq<Token>) {
    forall k :: 0 <= k < |ts| - 1 ==> !(ts[k].ttype == Space && ts[k + 1].ttype == Space)
  }

  /** What the scanner promises of its tokens beyond the tiling. */
  predicate Classified(ts: seq<Token>) {
    (forall k :: 0 <= k < |ts| ==> ScannedType(ts[k].ttype) && SpaceClassed(ts[k]))
    && (forall k :: 0 <= k < |ts| ==> ts[k].ttype == TokenizerTypes.Word && ts[k].text != [] ==> IsLetter(ts[k].text[0]))
    && SpacesApart(ts)
  }

  /** The run of white space that starts a Space token. */
  method SpaceRun(s: string, start: nat) returns (i: nat)
    requires start < |s| && IsSpace(s[start])
    ensures i == RunEnd(s, start, IsSpace) && start < i
  {
    i := start + 1;
    while i < |s| && IsSpace(s[i])
      invariant start < i <= |s|
      invariant RunEnd(s, start, IsSpace) == RunEnd(s, i, IsSpace)
    {
      i := i + 1;
    }
  }

  /** A run of hyphens after the first. */
  method HyphenRun(s: string, start: nat) returns (i: nat)
    requires start < |s| && s[start] == '-'
    ensures i == RunEnd(s, start, IsHyphen) && start < i
  {
    i := start + 1;
    while i < |s| && s[i] == '-'
      invariant start < i <= |s|
      invariant RunEnd(s, start, IsHyphen) == RunEnd(s, i, IsHyphen)
    {
      i := i + 1;
    }
  }

  /** Trimming keeps the scanner's classification. */
  lemma TrimmedClassified(ts: seq<Token>, emailStart: nat)
    requires Measured(ts) && Classified(ts)
    ensures Classified(TrimmedForEmail(ts, emailStart))
  {
    var r := TrimmedForEmail(ts, emailStart);
    forall k | 0 <= k < |r| ensures SpaceClassed(r[k]) {
      assert forall m :: 0 <= m < |r[k].text| ==> r[k].text[m] == ts[k].text[m];
    }
  }

  /** Appending a classified token that is not a second Space in a row keeps the classification. */
  lemma ClassifiedSnoc(ts: seq<Token>, t: Token)
    requires Classified(ts) && ScannedType(t.ttype) && SpaceClassed(t)
    requires t.ttype == TokenizerTypes.Word && t.text != [] ==> IsLetter(t.text[0])
    requires ts != [] && ts[|ts| - 1].ttype == Space ==> t.ttype != Space
    ensures Classified(ts + [t])
  {
    var r := ts + [t];
    assert forall k :: 0 <= k < |ts| ==> r[k] == ts[k];
  }

  /** The scanner's loop invariant: a classified tiling of s[..i], with no white space right after a Space token. */
  predicate ScanState(s: string, tokens: seq<Token>, i: nat) {
    i <= |s| && Tiles(tokens, s, i) && Classified(tokens)
    && (tokens != [] && tokens[|tokens| - 1].ttype == Space ==> i == |s| || !IsSpace(s[i]))
  }

  /** Appending the non-space token s[i..j] of type t after the state at i. */
  lemma EmitSolid(s: string, tokens: seq<Token>, i: nat, j: nat, t: int)
    requires ScanState(s, tokens, i) && i < j <= |s| && ScannedType(t) && t != Space
    requires forall m :: i <= m < j ==> !IsSpace(s[m])
    requires t == TokenizerTypes.Word ==> IsLetter(s[i])
    ensures ScanState(s, tokens + [Token(s[i..j], i, j, t)], j)
  {
    TilesSnoc(tokens, s, i, j, t);
    ClassifiedSnoc(tokens, Token(s[i..j], i, j, t));
  }

  /** An email span holds no white space. */
  lemma EmailSolid(s: string, atPos: nat)
    requires atPos < |s| && s[atPos] == '@' && EmailSpan(s, atPos).Some?
    ensures forall m :: EmailSpan(s, atPos).value.0 <= m < EmailSpan(s, atPos).value.1 ==> !IsSpace(s[m])
  {
  }

  /** A number token holds no white space. */
  lemma NumberSolid(s: string, pos: nat)
    requires pos <= |s|
    ensures forall m :: pos <= m < NumberEnd(s, pos) ==> !IsSpace(s[m])
  {
    NumberShape(s, pos);
    var e := NumberEnd(s, pos);
    forall m | pos <= m < e ensures !IsSpace(s[m]) {
      assert NumberRune(s, m, e);
    }
  }

  /** A word token holds no white space. */
  lemma WordSolid(s: string, pos: nat)
    requires pos < |s| && IsLetter(s[pos])
    ensures forall m :: pos <= m < WordEnd(s, pos) ==> !IsSpace(s[m])
  {
    WordShape(s, pos);
    var e := WordEnd(s, pos);
    forall m | pos <= m < e ensures !IsSpace(s[m]) {
      assert WordRune(s, m, e);
      if LetterOrDigit(s[m]) {
        if IsSpace(s[m]) { SpaceIsNothingElse(s[m]); }
      } else {
        assert s[m] == '-' || IsApostrophe(s[m]);
      }
    }
  }

  /** Where the token that starts at i ends, and its type, when it is neither a URL nor an email. */
  function SimpleToken(s: string, i: nat): (r: (nat, int))
    requires i < |s|
    ensures i < r.0 <= |s|
  {
    var c := s[i];
    if IsSpace(c) then (RunEnd(s, i, IsSpace), Space)
    else if IsAsciiDigit(c) then (NumberEnd(s, i), Number)
    else if IsLetter(c) then (WordEnd(s, i), TokenizerTypes.Word)
    else if IsPunct(c) then (if c == '-' then RunEnd(s, i, IsHyphen) else i + 1, Punctuation)
    else (i + 1, Symbol)
  }

  /**
   * One pass of wordTokens' loop at i, in its rule order: a URL, then an
   * email (which first trims the tokens its local part overlaps), then the
   * token the rune at i starts. Gives the new token list and where the scan
   * goes on.
   */
  function Step(s: string, tokens: seq<Token>, i: nat): (r: (seq<Token>, nat))
    requires i < |s| && Measured(tokens)
    ensures i < r.1 <= |s| && Measured(r.0)
  {
    var c := s[i];
    var url := if (c == 'h' || c == 'H') && i + 7 <= |s| then UrlEnd(s, i) else None;
    var email := if c == '@' then EmailSpan(s, i) else None;
    if url.Some? then
      (tokens + [Token(s[i..url.value], i, url.value, URL)], url.value)
    else if email.Some? then
      var (start, end) := email.value;
      (TrimmedForEmail(tokens, start) + [Token(s[start..end], start, end, Email)], end)
    else
      var (end, t) := SimpleToken(s, i);
      (tokens + [Token(s[i..end], i, end, t)], end)
  }

  /** The tokens of wordTokens' loop run from the state (tokens, i) to the end of s. */
  function ScanFrom(s: string, tokens: seq<Token>, i: nat): seq<Token>
    requires i <= |s| && Measured(tokens)
    decreases |s| - i
  {
    if i == |s| then tokens
    else
      var next := Step(s, tokens, i);
      ScanFrom(s, next.0, next.1)
  }

  /** wordTokens(s): the loop run from no tokens at offset 0. */
  function WordTokensOf(s: string): seq<Token> {
    ScanFrom(s, [], 0)
  }

  /** The token SimpleToken describes keeps the scanner's loop invariant. */
  lemma SimpleState(s: string, tokens: seq<Token>, i: nat)
    requires ScanState(s, tokens, i) && i < |s|
    ensures var (end, t) := SimpleToken(s, i);
      ScanState(s, tokens + [Token(s[i..end], i, end, t)], end)
  {
    var c := s[i];
    var end := SimpleToken(s, i).0;
    if IsSpace(c) {
      TilesSnoc(tokens, s, i, end, Space);
      ClassifiedSnoc(tokens, Token(s[i..end], i, end, Space));
    } else if IsAsciiDigit(c) {
      NumberSolid(s, i);
      EmitSolid(s, tokens, i, end, Number);
    } else if IsLetter(c) {
      WordSolid(s, i);
      EmitSolid(s, tokens, i, end, TokenizerTypes.Word);
    } else if IsPunct(c) {
      assert forall m :: i <= m < end ==> s[m] == c;
      EmitSolid(s, tokens, i, end, Punctuation);
    } else {
      EmitSolid(s, tokens, i, i + 1, Symbol);
    }
  }

  /** The email rule keeps the scanner's loop invariant. */
  lemma EmailState(s: string, tokens: seq<Token>, i: nat)
    requires ScanState(s, tokens, i) && i < |s| && s[i] == '@' && EmailSpan(s, i).Some?
    ensures Measured(tokens)
    ensures var (start, end) := EmailSpan(s, i).value;
      ScanState(s, TrimmedForEmail(tokens, start) + [Token(s[start..end], start, end, Email)], end)
  {
    var (start, end) := EmailSpan(s, i).value;
    TrimmedTiles(tokens, s, i, start);
    TrimmedClassified(tokens, start);
    EmailSolid(s, i);
    EmitSolid(s, TrimmedForEmail(tokens, start), start, end, Email);
  }

  /** One step keeps the scanner's loop invariant. */
  lemma StepState(s: string, tokens: seq<Token>, i: nat)
    requires ScanState(s, tokens, i) && i < |s| && Measured(tokens)
    ensures ScanState(s, Step(s, tokens, i).0, Step(s, tokens, i).1)
  {
    var c := s[i];
    var url := if (c == 'h' || c == 'H') && i + 7 <= |s| then UrlEnd(s, i) else None;
    var email := if c == '@' then EmailSpan(s, i) else None;
    if url.Some? {
      EmitSolid(s, tokens, i, url.value, URL);
    } else if email.Some? {
      EmailState(s, tokens, i);
    } else {
      SimpleState(s, tokens, i);
    }
  }

  /** Run to the end from a state of the loop, the scan gives a classified tiling of s. */
  lemma {:induction false} ScanFromState(s: string, tokens: seq<Token>, i: nat)
    requires ScanState(s, tokens, i) && Measured(tokens)
    ensures Tiles(ScanFrom(s, tokens, i), s, |s|) && Classified(ScanFrom(s, tokens, i))
    decreases |s| - i
  {
    if i < |s| {
      StepState(s, tokens, i);
      var next := Step(s, tokens, i);
      ScanFromState(s, next.0, next.1);
    }
  }

  /**
   * The tokens of s tile it, are of the scanner's types, a Space token is a
   * whole run of white space and every other token holds none.
   */
  lemma WordTokensShape(s: string)
    ensures Tiles(WordTokensOf(s), s, |s|) && Classified(WordTokensOf(s))
  {
    ScanFromState(s, [], 0);
  }

  /** A run of ASCII letters is one Word token. */
  lemma LettersAreOneWord(s: string)
    requires s != [] && forall k :: 0 <= k < |s| ==> IsAsciiLetter(s[k])
    ensures WordTokensOf(s) == [Token(s, 0, |s|, TokenizerTypes.Word)]
  {
    var c := s[0];
    assert IsLetter(c) && !IsSpace(c) && !IsAsciiDigit(c);
    assert UrlPrefixLen(s[0..]) == 0 by {
      if |s| >= 8 {
        assert s[0..][4] == s[4] && s[0..][5] == s[5];
      }
    }
    assert RunEnd(s, 0, LetterOrDigit) == |s|;
    assert WordEnd(s, 0) == |s|;
    assert s[0..|s|] == s;
    assert UrlEnd(s, 0).None?;
    assert SimpleToken(s, 0) == (|s|, TokenizerTypes.Word);
    var next := Step(s, [], 0);
    var tok := Token(s, 0, |s|, TokenizerTypes.Word);
    assert next.0 == [] + [tok];
    assert [] + [tok] == [tok];
    assert ScanFrom(s, [tok], |s|) == [tok];
    assert WordTokensOf(s) == ScanFrom(s, next.0, next.1);
  }

  /** Rule 1: a URL token, when scanURL accepts. */
  method TryURL(s: string, tokens: seq<Token>, i: nat) returns (tokens': seq<Token>, i': nat, ok: bool)
    requires ScanState(s, tokens, i) && i < |s|
    ensures ok == UrlEnd(s, i).Some?
    ensures ok ==> (ScanState(s, tokens', i') && i' == UrlEnd(s, i).value
      && tokens' == tokens + [Token(s[i..i'], i, i', URL)])
  {
    tokens', i' := tokens, i;
    var end;
    end, ok := ScanURL(s, i);
    if ok {
      EmitSolid(s, tokens, i, end, URL);
      tokens' := tokens + [Token(s[i..end], i, end, URL)];
      i' := end;
    }
  }

  /** Rule 2: an Email token around the @, replacing the tokens its local part overlaps. */
  method TryEmail(s: string, tokens: seq<Token>, i: nat) returns (tokens': seq<Token>, i': nat, ok: bool)
    requires ScanState(s, tokens, i) && i < |s| && s[i] == '@'
    ensures ok == EmailSpan(s, i).Some?
    ensures ok ==> (ScanState(s, tokens', i') && Measured(tokens)
      && var (start, end) := EmailSpan(s, i).value;
        i' == end && tokens' == TrimmedForEmail(tokens, start) + [Token(s[start..end], start, end, Email)])
  {
    tokens', i' := tokens, i;
    var start, end;
    start, end, ok := ScanEmail(s, i);
    if ok {
      TrimmedTiles(tokens, s, i, start);
      TrimmedClassified(tokens, start);
      EmailSolid(s, i);
      var kept := TrimTokensForEmail(tokens, start);
      EmitSolid(s, kept, start, end, Email);
      tokens' := kept + [Token(s[start..end], start, end, Email)];
      i' := end;
    }
  }

  /** A whole run of white space as one Space token. */
  method EmitSpace(s: string, tokens: seq<Token>, i: nat) returns (tokens': seq<Token>, i': nat)
    requires ScanState(s, tokens, i) && i < |s| && IsSpace(s[i])
    ensures ScanState(s, tokens', i') && i < i'
    ensures i' == RunEnd(s, i, IsSpace) && tokens' == tokens + [Token(s[i..i'], i, i', Space)]
  {
    i' := SpaceRun(s, i);
    TilesSnoc(tokens, s, i, i', Space);
    ClassifiedSnoc(tokens, Token(s[i..i'], i, i', Space));
    tokens' := tokens + [Token(s[i..i'], i, i', Space)];
  }

  method EmitNumber(s: string, tokens: seq<Token>, i: nat) returns (tokens': seq<Token>, i': nat)
    requires ScanState(s, tokens, i) && i < |s| && IsAsciiDigit(s[i])
    ensures ScanState(s, tokens', i') && i < i'
    ensures i' == NumberEnd(s, i) && tokens' == tokens + [Token(s[i..i'], i, i', Number)]
  {
    var tok := ScanNumber(s, i);
    NumberSolid(s, i);
    EmitSolid(s, tokens, i, tok.end, Number);
    tokens' := tokens + [tok];
    i' := tok.end;
  }

  method EmitWord(s: string, tokens: seq<Token>, i: nat) returns (tokens': seq<Token>, i': nat)
    requires ScanState(s, tokens, i) && i < |s| && IsLetter(s[i])
    ensures ScanState(s, tokens', i') && i < i'
    ensures i' == WordEnd(s, i) && tokens' == tokens + [Token(s[i..i'], i, i', TokenizerTypes.Word)]
  {
    var tok := ScanWord(s, i);
    WordSolid(s, i);
    EmitSolid(s, tokens, i, tok.end, TokenizerTypes.Word);
    tokens' := tokens + [tok];
    i' := tok.end;
  }

  /** One punctuation rune, or a whole run of hyphens. */
  method EmitPunctuation(s: string, tokens: seq<Token>, i: nat) returns (tokens': seq<Token>, i': nat)
    requires ScanState(s, tokens, i) && i < |s| && IsPunct(s[i]) && !IsSpace(s[i])
    ensures ScanState(s, tokens', i') && i < i'
    ensures i' == (if s[i] == '-' then RunEnd(s, i, IsHyphen) else i + 1)
    ensures tokens' == tokens + [Token(s[i..i'], i, i', Punctuation)]
  {
    i' := i + 1;
    if s[i] == '-' {
      i' := HyphenRun(s, i);
    }
    assert forall m :: i <= m < i' ==> s[m] == s[i];
    EmitSolid(s, tokens, i, i', Punctuation);
    tokens' := tokens + [Token(s[i..i'], i, i', Punctuation)];
  }

  method EmitSymbol(s: string, tokens: seq<Token>, i: nat) returns (tokens': seq<Token>, i': nat)
    requires ScanState(s, tokens, i) && i < |s| && !IsSpace(s[i]) && !IsLetter(s[i])
    ensures ScanState(s, tokens', i') && i < i'
    ensures i' == i + 1 && tokens' == tokens + [Token(s[i..i + 1], i, i + 1, Symbol)]
  {
    EmitSolid(s, tokens, i, i + 1, Symbol);
    tokens' := tokens + [Token(s[i..i + 1], i, i + 1, Symbol)];
    i' := i + 1;
  }

  /**
   * wordTokens: the tokens are those of WordTokensOf, the rule-by-rule
   * dispatch run to the end; they tile the input, are of the scanner's types,
   * a Space token is a whole run of white space and every other token holds
   * none. A token starts with a digit only when its first rune is an ASCII
   * digit; other decimal digits fall through to Symbol.
   */
  method Scan(s: string) returns (tokens: seq<Token>)
    ensures tokens == WordTokensOf(s)
    ensures Tiles(tokens, s, |s|)
    ensures Classified(tokens)
  {
    tokens := [];
    var i := 0;
    while i < |s|
      invariant ScanState(s, tokens, i) && Measured(tokens)
      invariant ScanFrom(s, tokens, i) == WordTokensOf(s)
      decreases |s| - i
    {
      tokens, i := Dispatch(s, tokens, i);
    }
  }

  /** The token the rune at i starts when no URL or email begins there. */
  method EmitSimple(s: string, tokens: seq<Token>, i: nat) returns (tokens': seq<Token>, i': nat)
    requires ScanState(s, tokens, i) && i < |s|
    ensures ScanState(s, tokens', i')
    ensures var (end, t) := SimpleToken(s, i);
      i' == end && tokens' == tokens + [Token(s[i..end], i, end, t)]
  {
    var r := s[i];
    if IsSpace(r) {
      tokens', i' := EmitSpace(s, tokens, i);
    } else if IsAsciiDigit(r) {
      tokens', i' := EmitNumber(s, tokens, i);
    } else if IsLetter(r) {
      tokens', i' := EmitWord(s, tokens, i);
    } else if IsPunct(r) {
      tokens', i' := EmitPunctuation(s, tokens, i);
    } else {
      tokens', i' := EmitSymbol(s, tokens, i);
    }
  }

  /** One pass of the loop body: the first rule that applies at i emits its token. */
  method Dispatch(s: string, tokens: seq<Token>, i: nat) returns (tokens': seq<Token>, i': nat)
    requires ScanState(s, tokens, i) && Measured(tokens) && i < |s|
    ensures (tokens', i') == Step(s, tokens, i)
    ensures ScanState(s, tokens', i') && Measured(tokens') && i < i'
  {
    var r := s[i];
    ghost var next := Step(s, tokens, i);
    var nt, ni, done := tokens, i, false;
    if (r == 'h' || r == 'H') && i + 7 <= |s| {
      nt, ni, done := TryURL(s, tokens, i);
    }
    if !done && r == '@' {
      nt, ni, done := TryEmail(s, tokens, i);
    }
    if !done {
      nt, ni := EmitSimple(s, tokens, i);
    }
    assert (nt, ni) == next;
    TilesMeasured(nt, s, ni);
    tokens', i' := nt, ni;
  }

  /**
   * The dispatch as written sends every rune unicode.IsDigit accepts to the
   * number scanner, which consumes ASCII digits only: on an Arabic-Indic zero
   * it consumes nothing, so the position would never advance.
   */
  lemma NonAsciiDigitStalls()
    ensures var c := '\U{0660}';
      IsDigit(c) && !IsSpace(c) && !IsAsciiDigit(c) && c != 'h' && c != 'H' && c != '@'
      && NumberEnd([c], 0) == 0
  {
    var s := ['\U{0660}'];
    assert RunEnd(s, 0, IsAsciiDigit) == 0;
    assert DotGroupsEnd(s, 0) == 0;
  }
}
