/**
 * Azerbaijani cardinal text back to an integer: the words are read left to
 * right into a group below one thousand and a total of finished magnitudes.
 */
module NumtextParse {
  import opened Wrappers
  import opened NumtextWords
  import opened NumtextConvert
  import Unicode
  import GoInt

  /** parse's two accumulators: the finished magnitude groups and the group being built. */
  datatype Acc = Acc(current: int, group: int)

  /**
   * An int64 result as Go computes it when wraps holds (reduced into the signed
   * range), or the exact result otherwise (the corrected reading).
   */
  function Fit(x: int, wraps: bool): int {
    if wraps then GoInt.Wrap64(x) else x
  }

  /** Results that fit in int64 are the same either way. */
  lemma FitId(x: int, wraps: bool)
    requires GoInt.InInt64(x)
    ensures Fit(x, wraps) == x
  {
    if wraps {
      GoInt.Wrap64Id(x);
    }
  }

  const ErrEmpty: string := "numtext: empty input"
  const ErrEmptyAfterNegative: string := "numtext: empty input after \"mənfi\""
  const ErrCompoundZero: string := "numtext: unexpected sıfır in compound"
  const ErrRange: string := "numtext: out of range"

  function ErrUnknown(tok: string): string { "numtext: unknown word \"" + tok + "\"" }

  /** One pass of parse's loop over a token. */
  function Step(acc: Acc, tok: string, wraps: bool): Result<Acc> {
    match WordValue(tok)
    case None => Err(ErrUnknown(tok))
    case Some(val) =>
      if val == 0 then Err(ErrCompoundZero)
      else if val < Hundred then Ok(Acc(acc.current, Fit(acc.group + val, wraps)))
      else
        var g := if acc.group == 0 then 1 else acc.group;
        if val == Hundred then Ok(Acc(acc.current, Fit(g * 100, wraps)))
        else if g > MaxAbs / val then Err(ErrRange)
        else
          var product := Fit(g * val, wraps);
          if acc.current > Fit(MaxAbs - product, wraps) then Err(ErrRange)
          else Ok(Acc(Fit(acc.current + product, wraps), 0))
  }

  /** parse's loop over the tokens, stopping at the first error. */
  function Run(acc: Acc, toks: seq<string>, wraps: bool): Result<Acc>
    decreases |toks|
  {
    if toks == [] then Ok(acc)
    else
      match Step(acc, toks[0], wraps)
      case Err(msg) => Err(msg)
      case Ok(next) => Run(next, toks[1..], wraps)
  }

  /** The sum of the accumulators, signed, then the final range check. */
  function Finish(acc: Acc, sign: int, wraps: bool): Result<int> {
    var result := Fit(Fit(acc.current + acc.group, wraps) * sign, wraps);
    var abs := if result < 0 then Fit(-result, wraps) else result;
    if abs > MaxAbs then Err(ErrRange) else Ok(result)
  }

  /** parse after splitting: an optional leading "mənfi", a lone "sıfır", else the loop. */
  function ParseTokens(tokens: seq<string>, wraps: bool): Result<int> {
    if |tokens| == 0 then Err(ErrEmpty)
    else
      var sign := if tokens[0] == WordNegative then -1 else 1;
      var rest := if tokens[0] == WordNegative then tokens[1..] else tokens;
      if |rest| == 0 then Err(ErrEmptyAfterNegative)
      else if |rest| == 1 && rest[0] == WordZero then Ok(0)
      else
        match Run(Acc(0, 0), rest, wraps)
        case Err(msg) => Err(msg)
        case Ok(acc) => Finish(acc, sign, wraps)
  }

  /** The tokens parse reads: the trimmed, lower-cased input split at white space. */
  function Tokenize(s: string): seq<string> {
    Unicode.Fields(Unicode.Lower(Unicode.TrimSpace(s)))
  }

  /** Parse and parse together; wraps selects Go's int64 arithmetic. */
  function ParseText(s: string, wraps: bool): Result<int> {
    ParseTokens(Tokenize(s), wraps)
  }

  /** Parse: the public empty check, then parse with Go's int64 arithmetic. */
  method Parse(s: string) returns (r: Result<int>)
    ensures r == ParseText(s, true)
  {
    if s == "" {
      return Err(ErrEmpty);
    }
    r := ParseFields(Tokenize(s));
  }

  /** parse from the token list on. */
  method ParseFields(tokens: seq<string>) returns (r: Result<int>)
    ensures r == ParseTokens(tokens, true)
  {
    if |tokens| == 0 {
      return Err(ErrEmpty);
    }
    var sign := 1;
    var rest := tokens;
    if tokens[0] == WordNegative {
      sign := -1;
      rest := tokens[1..];
      if |rest| == 0 {
        return Err(ErrEmptyAfterNegative);
      }
    }
    if |rest| == 1 && rest[0] == WordZero {
      return Ok(0);
    }
    var acc := AccumulateAll(rest);
    if acc.Err? {
      return Err(acc.msg);
    }
    r := Total(acc.value.current, acc.value.group, sign);
  }

  /** parse's loop over the tokens. */
  method AccumulateAll(tokens: seq<string>) returns (r: Result<Acc>)
    ensures r == Run(Acc(0, 0), tokens, true)
  {
    var current, group := 0, 0;
    var i := 0;
    while i < |tokens|
      invariant 0 <= i <= |tokens|
      invariant Run(Acc(0, 0), tokens, true) == Run(Acc(current, group), tokens[i..], true)
    {
      assert tokens[i..][1..] == tokens[i + 1..];
      var next := Accumulate(current, group, tokens[i]);
      if next.Err? {
        return Err(next.msg);
      }
      current, group := next.value.current, next.value.group;
      i := i + 1;
    }
    r := Ok(Acc(current, group));
  }

  /** The end of parse: sum, sign and range check in int64 arithmetic. */
  method Total(current: int, group: int, sign: int) returns (r: Result<int>)
    ensures r == Finish(Acc(current, group), sign, true)
  {
    var result := GoInt.Wrap64(current + group);
    result := GoInt.Wrap64(result * sign);
    var abs := result;
    if abs < 0 {
      abs := GoInt.Wrap64(-abs);
    }
    if abs > MaxAbs {
      return Err(ErrRange);
    }
    r := Ok(result);
  }

  /** The body of parse's loop for one token, in int64 arithmetic. */
  method Accumulate(current: int, group: int, tok: string) returns (r: Result<Acc>)
    ensures r == Step(Acc(current, group), tok, true)
  {
    var val := WordValue(tok);
    if val.None? {
      return Err(ErrUnknown(tok));
    }
    var v := val.value;
    if v == 0 {
      return Err(ErrCompoundZero);
    }
    var g := group;
    if v < Hundred {
      g := GoInt.Wrap64(g + v);
      return Ok(Acc(current, g));
    }
    if g == 0 {
      g := 1;
    }
    if v == Hundred {
      g := GoInt.Wrap64(g * 100);
      return Ok(Acc(current, g));
    }
    if g > MaxAbs / v {
      return Err(ErrRange);
    }
    var product := GoInt.Wrap64(g * v);
    if current > GoInt.Wrap64(MaxAbs - product) {
      return Err(ErrRange);
    }
    r := Ok(Acc(GoInt.Wrap64(current + product), 0));
  }

  /** Reading a + b reads a and then, unless a failed, b from where a stopped. */
  lemma {:induction false} RunAppend(acc: Acc, a: seq<string>, b: seq<string>, wraps: bool)
    ensures Run(acc, a + b, wraps) == match Run(acc, a, wraps) case Err(msg) => Err(msg) case Ok(x) => Run(x, b, wraps)
    decreases |a|
  {
    if a == [] {
      assert a + b == b;
    } else {
      assert (a + b)[0] == a[0];
      assert (a + b)[1..] == a[1..] + b;
      match Step(acc, a[0], wraps)
      case Err(_) =>
      case Ok(x) => RunAppend(x, a[1..], b, wraps);
    }
  }

  /** An unknown word, or "sıfır", anywhere in the loop's tokens makes the loop fail. */
  lemma {:induction false} RunRejects(acc: Acc, toks: seq<string>, wraps: bool, j: int)
    requires 0 <= j < |toks|
    requires WordValue(toks[j]).None? || WordValue(toks[j]) == Some(0)
    ensures Run(acc, toks, wraps).Err?
    decreases j
  {
    if j > 0 {
      match Step(acc, toks[0], wraps)
      case Err(_) =>
      case Ok(x) =>
        assert toks[1..][j - 1] == toks[j];
        RunRejects(x, toks[1..], wraps, j - 1);
    }
  }

  /**
   * An unknown word is an error, and so is "sıfır" anywhere but alone after
   * the optional "mənfi".
   */
  lemma ParseRejects(tokens: seq<string>, wraps: bool, j: int)
    requires 0 <= j < |tokens| && !(j == 0 && tokens[0] == WordNegative)
    requires WordValue(tokens[j]).None? ||
      (WordValue(tokens[j]) == Some(0) && |tokens| > (if tokens[0] == WordNegative then 2 else 1))
    ensures ParseTokens(tokens, wraps).Err?
  {
    if tokens[0] == WordNegative {
      assert tokens[1..][j - 1] == tokens[j];
      if |tokens| > 1 {
        RunRejects(Acc(0, 0), tokens[1..], wraps, j - 1);
      }
    } else {
      RunRejects(Acc(0, 0), tokens, wraps, j);
    }
  }

  /** Input that is empty or only white space is the empty-input error. */
  lemma ParseBlank(s: string, wraps: bool)
    requires forall i :: 0 <= i < |s| ==> Unicode.IsSpace(s[i])
    ensures ParseText(s, wraps) == Err(ErrEmpty)
  {
    var l := Unicode.TrimLeft(s);
    var k :| 0 <= k <= |s| && l == s[k..];
    assert Unicode.TrimSpace(s) == [];
    assert Unicode.Lower([]) == [];
  }

  /** "yüz" or a magnitude word after an empty group reads as one of it. */
  lemma ImplicitOne(c: int, tok: string, wraps: bool)
    requires tok == WordHundred || tok in ["min", "milyon", "milyard", "trilyon", "kvadrilyon", "kvintilyon"]
    ensures Step(Acc(c, 0), tok, wraps) == Step(Acc(c, 1), tok, wraps)
    ensures WordValue(tok).Some? && WordValue(tok).value >= Hundred
  {
  }

  /** (m / v) * v <= m for positive v. */
  lemma DivMul(m: int, v: int)
    requires 0 <= m && 0 < v
    ensures (m / v) * v <= m
  {
  }

  /** g * v <= m exactly when g <= m / v, for positive v. */
  lemma DivBound(g: int, v: int, m: int)
    requires 0 < v && 0 <= m
    ensures g * v <= m <==> g <= m / v
  {
    var q := m / v;
    assert m == q * v + m % v && m % v < v;
    if g <= q {
      assert g * v <= q * v;
    } else {
      assert g >= q + 1;
      assert g * v >= (q + 1) * v;
    }
  }

  /**
   * A magnitude word checks its product and the new total against 10^18 before
   * adding: on success the total stays within 0..10^18 and grows by the group
   * (one when empty) times the magnitude.
   */
  lemma MagnitudeStep(acc: Acc, tok: string, wraps: bool)
    requires 0 <= acc.current <= MaxAbs && 0 <= acc.group
    requires WordValue(tok).Some? && WordValue(tok).value > Hundred
    ensures var v := WordValue(tok).value; var g := if acc.group == 0 then 1 else acc.group;
      Step(acc, tok, wraps).Ok? <==> g * v <= MaxAbs - acc.current
    ensures Step(acc, tok, wraps).Ok? ==>
      var v := WordValue(tok).value; var g := if acc.group == 0 then 1 else acc.group;
      Step(acc, tok, wraps) == Ok(Acc(acc.current + g * v, 0)) && acc.current + g * v <= MaxAbs
  {
    var v := WordValue(tok).value;
    var g := if acc.group == 0 then 1 else acc.group;
    DivBound(g, v, MaxAbs);
    if g <= MaxAbs / v {
      assert 0 <= g * v <= MaxAbs;
      FitId(g * v, wraps);
      FitId(MaxAbs - g * v, wraps);
      if acc.current <= MaxAbs - g * v {
        FitId(acc.current + g * v, wraps);
      }
    } else {
      assert g * v > MaxAbs;
    }
  }

  /** A ones or tens word adds its value to the group. */
  lemma RunUnit(c: int, g: int, w: string, v: int, wraps: bool)
    requires 0 < v < Hundred && WordValue(w) == Some(v) && 0 <= g < 1000
    ensures Run(Acc(c, g), [w], wraps) == Ok(Acc(c, g + v))
  {
    FitId(g + v, wraps);
    assert [w][1..] == [];
  }

  /** The three parts of a group's words: hundreds, tens and ones. */
  function HundredsWords(h: int): seq<string>
    requires 0 <= h <= 9
  {
    if h == 1 then [WordHundred] else if h > 1 then [Ones[h], WordHundred] else []
  }

  function TensWords(t: int): seq<string>
    requires 0 <= t <= 9
  {
    if t > 0 then [Tens[t]] else []
  }

  function OnesWords(o: int): seq<string>
    requires 0 <= o <= 9
  {
    if o > 0 then [Ones[o]] else []
  }

  lemma GroupParts(n: int)
    requires 0 < n <= 999
    ensures GroupWords(n) == HundredsWords(n / 100) + TensWords(n % 100 / 10) + OnesWords(n % 10)
    ensures 100 * (n / 100) + 10 * (n % 100 / 10) + n % 10 == n
  {
  }

  /** The hundreds words of a group: nothing, "yüz", or a digit and "yüz". */
  lemma RunHundreds(c: int, h: int, wraps: bool)
    requires 0 <= h <= 9
    ensures Run(Acc(c, 0), HundredsWords(h), wraps) == Ok(Acc(c, 100 * h))
  {
    TablesAgree();
    FitId(Hundred, wraps);
    if h > 1 {
      RunUnit(c, 0, Ones[h], h, wraps);
      RunAppend(Acc(c, 0), [Ones[h]], [WordHundred], wraps);
      assert [Ones[h]] + [WordHundred] == [Ones[h], WordHundred];
      FitId(h * 100, wraps);
      assert [WordHundred][1..] == [];
    } else if h == 1 {
      assert [WordHundred][1..] == [];
    }
  }

  lemma RunTens(c: int, g: int, t: int, wraps: bool)
    requires 0 <= t <= 9 && 0 <= g <= 900
    ensures Run(Acc(c, g), TensWords(t), wraps) == Ok(Acc(c, g + 10 * t))
  {
    if t > 0 {
      TablesAgree();
      RunUnit(c, g, Tens[t], 10 * t, wraps);
    }
  }

  lemma RunOnes(c: int, g: int, o: int, wraps: bool)
    requires 0 <= o <= 9 && 0 <= g <= 990
    ensures Run(Acc(c, g), OnesWords(o), wraps) == Ok(Acc(c, g + o))
  {
    if o > 0 {
      TablesAgree();
      RunUnit(c, g, Ones[o], o, wraps);
    }
  }

  /** Reading the words of a group value from an empty group leaves that value in the group. */
  lemma RunGroup(c: int, n: int, wraps: bool)
    requires 0 < n <= 999
    ensures Run(Acc(c, 0), GroupWords(n), wraps) == Ok(Acc(c, n))
  {
    var h, t, o := n / 100, n % 100 / 10, n % 10;
    GroupParts(n);
    RunDigits(c, h, t, o, wraps);
  }

  lemma RunDigits(c: int, h: int, t: int, o: int, wraps: bool)
    requires 0 <= h <= 9 && 0 <= t <= 9 && 0 <= o <= 9
    ensures Run(Acc(c, 0), HundredsWords(h) + TensWords(t) + OnesWords(o), wraps) == Ok(Acc(c, 100 * h + 10 * t + o))
  {
    var H, T, O := HundredsWords(h), TensWords(t), OnesWords(o);
    RunHundreds(c, h, wraps);
    RunAppend(Acc(c, 0), H, T, wraps);
    RunTens(c, 100 * h, t, wraps);
    RunAppend(Acc(c, 0), H + T, O, wraps);
    RunOnes(c, 100 * h + 10 * t, o, wraps);
  }

  /** The words for count times magnitude k add that amount to the total and leave the group empty. */
  lemma RunMagnitude(c: int, count: int, k: nat, total: int, wraps: bool)
    requires k < |Magnitudes| && 0 < count <= 999
    requires 0 <= c && total == c + Scale(count, k) && total <= MaxAbs
    ensures Run(Acc(c, 0), MagnitudeWords(count, Magnitudes[k]), wraps) == Ok(Acc(total, 0))
  {
    ScaleValue(count, k);
    var mag := Magnitudes[k];
    TablesAgree();
    MagnitudeChain(k);
    var g := if mag.value == 1000 && count == 1 then 0 else count;
    if mag.value == 1000 && count == 1 {
      assert MagnitudeWords(count, mag) == [mag.word];
    } else {
      RunGroup(c, count, wraps);
      RunAppend(Acc(c, 0), GroupWords(count), [mag.word], wraps);
    }
    MagnitudeStep(Acc(c, g), mag.word, wraps);
    assert [mag.word][1..] == [];
  }

  /** A run that succeeded with total plus group equal to c + m, a group below one thousand and a total of at least c. */
  predicate ReadsBack(c: int, m: int, r: Result<Acc>) {
    r.Ok? && r.value.current + r.value.group == c + m && 0 <= r.value.group <= 999 && c <= r.value.current
  }

  /** The last group of convert's words, with no magnitude word after it. */
  lemma RunLast(c: int, m: int, wraps: bool)
    requires 0 <= m < 1000 && 0 <= c
    ensures ReadsBack(c, m, Run(Acc(c, 0), ConvertWords(m, |Magnitudes|), wraps))
  {
    ConvertLast(m);
    if m > 0 {
      RunGroup(c, m, wraps);
    }
  }

  /** The block for count times magnitude k, followed by more words, moves count times the magnitude into the total. */
  lemma RunBlock(c: int, count: int, k: nat, rest: seq<string>, total: int, wraps: bool)
    requires k < |Magnitudes| && 0 <= count <= 999
    requires 0 <= c && total == c + Scale(count, k) && total <= MaxAbs
    ensures Run(Acc(c, 0), MagnitudeWords(count, Magnitudes[k]) + rest, wraps) == Run(Acc(total, 0), rest, wraps)
  {
    var block := MagnitudeWords(count, Magnitudes[k]);
    RunAppend(Acc(c, 0), block, rest, wraps);
    if count > 0 {
      RunMagnitude(c, count, k, total, wraps);
    } else {
      assert block + rest == rest;
    }
  }

  /**
   * Reading convert's words for m from magnitude k on, after a total c, ends
   * with total plus group equal to c + m and a group below one thousand.
   */
  lemma {:induction false} RunConvert(c: int, m: int, k: nat, wraps: bool)
    requires k <= |Magnitudes| && 0 <= m <= MaxAbs && (k > 0 ==> m < Magnitudes[k - 1].value)
    requires 0 <= c && c + m <= MaxAbs
    ensures ReadsBack(c, m, Run(Acc(c, 0), ConvertWords(m, k), wraps))
    decreases |Magnitudes| - k
  {
    if k == |Magnitudes| {
      MagnitudeChain(k - 1);
      RunLast(c, m, wraps);
    } else {
      var p := Split(m, k);
      var rest := ConvertWords(p.1, k + 1);
      var total := c + Scale(p.0, k);
      ConvertUnfold(m, k);
      RunConvert(total, p.1, k + 1, wraps);
      ConvertStep(c, p.0, k, rest, p.1, total, m, wraps);
    }
  }

  /** One magnitude of RunConvert: the block for magnitude k, then the rest read from the new total. */
  lemma ConvertStep(c: int, count: int, k: nat, rest: seq<string>, low: int, total: int, m: int, wraps: bool)
    requires k < |Magnitudes| && 0 <= count <= 999 && 0 <= c && 0 <= low
    requires total == c + Scale(count, k) && m == Scale(count, k) + low && total + low <= MaxAbs
    requires ReadsBack(total, low, Run(Acc(total, 0), rest, wraps))
    ensures ReadsBack(c, m, Run(Acc(c, 0), MagnitudeWords(count, Magnitudes[k]) + rest, wraps))
  {
    RunBlock(c, count, k, rest, total, wraps);
  }

  /** The text of a non-empty list of lower-case tokens splits back into that list. */
  lemma TokenizeJoin(ws: seq<string>)
    requires ws != [] && Tokens(ws)
    ensures Tokenize(Unicode.Join(ws, " ")) == ws
  {
    var s := Unicode.Join(ws, " ");
    Unicode.JoinEmpty(ws, " ");
    assert s[0] == ws[0][0];
    Unicode.TrimSpaceId(s);
    Unicode.JoinLower(ws, " ");
    Unicode.FieldsOfJoin(ws);
  }

  /** The words convert writes for a value in range are what parse reads back. */
  lemma CardinalTokens(n: int)
    requires -MaxAbs <= n <= MaxAbs
    ensures Tokenize(CardinalText(n)) == if n == 0 then [WordZero] else CardinalWords(n)
  {
    if n == 0 {
      OnesTokens();
      assert Unicode.Join([WordZero], " ") == WordZero;
      TokenizeJoin([WordZero]);
    } else {
      CardinalWordsTokens(n);
      TokenizeJoin(CardinalWords(n));
    }
  }

  /** The loop reads convert's words for 0 < m <= 10^18 back as m, and the first word is not "mənfi" or a lone "sıfır". */
  lemma ReadMagnitude(m: int, wraps: bool)
    requires 0 < m <= MaxAbs
    ensures var ws := ConvertWords(m, 0); ws != [] && ws[0] != WordNegative && !(|ws| == 1 && ws[0] == WordZero)
    ensures ReadsBack(0, m, Run(Acc(0, 0), ConvertWords(m, 0), wraps))
  {
    var ws := ConvertWords(m, 0);
    RunConvert(0, m, 0, wraps);
    ConvertNonEmpty(m, 0);
    if ws[0] == WordNegative || ws[0] == WordZero {
      RejectFirst(ws, wraps);
    }
  }

  /** A run whose first word is "mənfi" or "sıfır" fails. */
  lemma RejectFirst(ws: seq<string>, wraps: bool)
    requires ws != [] && (ws[0] == WordNegative || ws[0] == WordZero)
    ensures Run(Acc(0, 0), ws, wraps).Err?
  {
    TablesAgree();
    assert WordValue(Ones[0]) == Some(0);
    RunRejects(Acc(0, 0), ws, wraps, 0);
  }

  /** The final sum and sign give back the value the loop accumulated. */
  lemma FinishSigned(acc: Acc, sign: int, m: int, r: int, wraps: bool)
    requires 0 < m <= MaxAbs && acc.current + acc.group == m
    requires (sign == 1 && r == m) || (sign == -1 && r == -m)
    ensures Finish(acc, sign, wraps) == Ok(r)
  {
    FitId(m, wraps);
    FitId(r, wraps);
    FitId(-r, wraps);
  }

  /** Parse reads convert's words for a positive value back as that value. */
  lemma ParsePositive(m: int, wraps: bool)
    requires 0 < m <= MaxAbs
    ensures ParseTokens(ConvertWords(m, 0), wraps) == Ok(m)
  {
    ReadMagnitude(m, wraps);
    var acc := Run(Acc(0, 0), ConvertWords(m, 0), wraps).value;
    FinishSigned(acc, 1, m, m, wraps);
  }

  /** Parse reads "mənfi" and convert's words for m back as n = -m. */
  lemma ParseNegative(m: int, n: int, wraps: bool)
    requires 0 < m <= MaxAbs && n == -m
    ensures ParseTokens([WordNegative] + ConvertWords(m, 0), wraps) == Ok(n)
  {
    var ws := [WordNegative] + ConvertWords(m, 0);
    assert ws[0] == WordNegative && ws[1..] == ConvertWords(m, 0);
    ReadMagnitude(m, wraps);
    var acc := Run(Acc(0, 0), ConvertWords(m, 0), wraps).value;
    FinishSigned(acc, -1, m, n, wraps);
  }

  /** Parse(Convert(n)) == n for every n that convert writes out, with Go's int64 arithmetic or without. */
  lemma ParseRoundTrip(n: int, wraps: bool)
    requires -MaxAbs <= n <= MaxAbs
    ensures ParseText(CardinalText(n), wraps) == Ok(n)
  {
    CardinalTokens(n);
    if n > 0 {
      PositiveWords(n);
      ParsePositive(n, wraps);
    } else if n < 0 {
      var m := -n;
      NegativeWords(m);
      assert CardinalWords(n) == [WordNegative] + ConvertWords(m, 0);
      ParseNegative(m, n, wraps);
    }
  }

  /** The final check keeps every exact result within 10^18; Go's arithmetic lets -2^63 through as well. */
  lemma FinishRange(acc: Acc, sign: int, wraps: bool)
    requires sign == 1 || sign == -1
    ensures Finish(acc, sign, wraps).Ok? && !wraps ==> -MaxAbs <= Finish(acc, sign, wraps).value <= MaxAbs
    ensures Finish(acc, sign, wraps).Ok? && wraps ==>
      -MaxAbs <= Finish(acc, sign, wraps).value <= MaxAbs || Finish(acc, sign, wraps).value == -GoInt.TwoTo63
  {
    if wraps {
      var result := Fit(Fit(acc.current + acc.group, wraps) * sign, wraps);
      if result < 0 && result != -GoInt.TwoTo63 {
        FitId(-result, wraps);
      }
    }
  }

  /** Every value parse returns is within 10^18 of zero, except -2^63 with Go's arithmetic. */
  lemma ParseRange(tokens: seq<string>, wraps: bool)
    ensures ParseTokens(tokens, wraps).Ok? ==>
      -MaxAbs <= ParseTokens(tokens, wraps).value <= MaxAbs || (wraps && ParseTokens(tokens, wraps).value == -GoInt.TwoTo63)
  {
    if tokens != [] {
      var sign := if tokens[0] == WordNegative then -1 else 1;
      var rest := if tokens[0] == WordNegative then tokens[1..] else tokens;
      match Run(Acc(0, 0), rest, wraps)
      case Err(_) =>
      case Ok(acc) => FinishRange(acc, sign, wraps);
    }
  }

  lemma MulNonNeg(a: int, b: int)
    requires 0 <= a && 0 <= b
    ensures 0 <= a * b
  {
  }

  /** With exact arithmetic one pass of the loop never makes the total or the group negative. */
  lemma StepNonNeg(acc: Acc, tok: string)
    requires 0 <= acc.current && 0 <= acc.group
    ensures Step(acc, tok, false).Ok? ==> 0 <= Step(acc, tok, false).value.current && 0 <= Step(acc, tok, false).value.group
  {
    var v := WordValue(tok);
    if v.Some? && v.value > Hundred {
      MulNonNeg(if acc.group == 0 then 1 else acc.group, v.value);
    }
  }

  /** With exact arithmetic the loop never makes the total or the group negative. */
  lemma {:induction false} RunNonNeg(acc: Acc, toks: seq<string>)
    requires 0 <= acc.current && 0 <= acc.group
    ensures Run(acc, toks, false).Ok? ==> 0 <= Run(acc, toks, false).value.current && 0 <= Run(acc, toks, false).value.group
    decreases |toks|
  {
    if toks != [] {
      StepNonNeg(acc, toks[0]);
      if Step(acc, toks[0], false).Ok? {
        RunNonNeg(Step(acc, toks[0], false).value, toks[1..]);
      }
    }
  }

  /**
   * With exact arithmetic the sign of the result is the sign the words say:
   * not negative without a leading "mənfi", not positive with one.
   */
  lemma ParseSign(tokens: seq<string>)
    requires ParseTokens(tokens, false).Ok?
    ensures tokens[0] != WordNegative ==> ParseTokens(tokens, false).value >= 0
    ensures tokens[0] == WordNegative ==> ParseTokens(tokens, false).value <= 0
  {
    var rest := if tokens[0] == WordNegative then tokens[1..] else tokens;
    RunNonNeg(Acc(0, 0), rest);
  }

  /** n words "yüz". */
  function Hundreds(n: nat): seq<string> {
    if n == 0 then [] else Hundreds(n - 1) + [WordHundred]
  }

  function Power100(n: nat): (p: nat)
    ensures p >= 1
  {
    if n == 0 then 1 else 100 * Power100(n - 1)
  }

  lemma MulStep(g: int, p: int, q: int)
    requires q == 100 * p
    ensures g * q == (g * p) * 100
  {
  }

  lemma MulGrows(g: int, p: int)
    requires 0 < g && 0 < p
    ensures g <= g * p
  {
  }

  /** Each "yüz" multiplies the group by one hundred while the product fits in int64. */
  lemma {:induction false} RunHundredsRepeat(c: int, g: int, n: nat, r: int, wraps: bool)
    requires 0 < g && r == g * Power100(n) && r < GoInt.TwoTo63
    ensures Run(Acc(c, g), Hundreds(n), wraps) == Ok(Acc(c, r))
  {
    if n == 0 {
    } else {
      var r' := g * Power100(n - 1);
      MulStep(g, Power100(n - 1), Power100(n));
      MulGrows(g, Power100(n - 1));
      RunHundredsRepeat(c, g, n - 1, r', wraps);
      RunAppend(Acc(c, g), Hundreds(n - 1), [WordHundred], wraps);
      TablesAgree();
      FitId(r, wraps);
      assert [WordHundred][1..] == [];
    }
  }

  /** "on səkkiz" followed by nine "yüz": eighteen times 10^18, more than int64 holds. */
  function OverflowTokens(): seq<string> {
    [Tens[1], Ones[8]] + Hundreds(9)
  }

  lemma OverflowEighteen(wraps: bool)
    ensures Run(Acc(0, 0), [Tens[1], Ones[8]], wraps) == Ok(Acc(0, 18))
  {
    TablesAgree();
    RunUnit(0, 0, Tens[1], 10, wraps);
    RunUnit(0, 10, Ones[8], 8, wraps);
    RunAppend(Acc(0, 0), [Tens[1]], [Ones[8]], wraps);
    assert [Tens[1]] + [Ones[8]] == [Tens[1], Ones[8]];
  }

  lemma OverflowGroup(wraps: bool)
    ensures Run(Acc(0, 0), [Tens[1], Ones[8]] + Hundreds(8), wraps) == Ok(Acc(0, 180_000_000_000_000_000))
  {
    OverflowEighteen(wraps);
    RunAppend(Acc(0, 0), [Tens[1], Ones[8]], Hundreds(8), wraps);
    assert Power100(8) == 10_000_000_000_000_000;
    RunHundredsRepeat(0, 18, 8, 180_000_000_000_000_000, wraps);
  }

  /** The ninth "yüz" multiplies past int64: Go's arithmetic wraps to a negative group. */
  lemma OverflowLast(wraps: bool)
    ensures Run(Acc(0, 0), OverflowTokens(), wraps)
         == Ok(Acc(0, if wraps then -446_744_073_709_551_616 else 18_000_000_000_000_000_000))
  {
    var toks := OverflowTokens();
    assert toks == ([Tens[1], Ones[8]] + Hundreds(8)) + [WordHundred];
    OverflowGroup(wraps);
    RunAppend(Acc(0, 0), [Tens[1], Ones[8]] + Hundreds(8), [WordHundred], wraps);
    TablesAgree();
    assert [WordHundred][1..] == [];
    assert GoInt.Wrap64(18_000_000_000_000_000_000) == -446_744_073_709_551_616;
  }

  /** Tokens without a leading "mənfi" that are not a lone "sıfır" go through the loop and the final check with sign one. */
  lemma ParseUnsigned(tokens: seq<string>, wraps: bool)
    requires tokens != [] && tokens[0] != WordNegative && !(|tokens| == 1 && tokens[0] == WordZero)
    ensures Run(Acc(0, 0), tokens, wraps).Err? ==> ParseTokens(tokens, wraps) == Err(Run(Acc(0, 0), tokens, wraps).msg)
    ensures Run(Acc(0, 0), tokens, wraps).Ok? ==> ParseTokens(tokens, wraps) == Finish(Run(Acc(0, 0), tokens, wraps).value, 1, wraps)
  {
  }

  lemma FinishOverflow()
    ensures Finish(Acc(0, -446_744_073_709_551_616), 1, true) == Ok(-446_744_073_709_551_616)
    ensures Finish(Acc(0, 18_000_000_000_000_000_000), 1, false) == Err(ErrRange)
  {
    FitId(-446_744_073_709_551_616, true);
    FitId(446_744_073_709_551_616, true);
  }

  /**
   * As written, parse multiplies the group by one hundred without a range
   * check, so eighteen times 10^18 wraps to a negative int64 that passes
   * the final check: a value below zero with no "mənfi". With exact
   * arithmetic the same words are out of range.
   */
  lemma OverflowAsWritten()
    ensures OverflowTokens()[0] != WordNegative
    ensures ParseTokens(OverflowTokens(), true) == Ok(-446_744_073_709_551_616)
    ensures ParseTokens(OverflowTokens(), false) == Err(ErrRange)
  {
    var toks := OverflowTokens();
    assert toks[0] == Tens[1] && |toks| == 11;
    ParseUnsigned(toks, true);
    ParseUnsigned(toks, false);
    OverflowLast(true);
    OverflowLast(false);
    FinishOverflow();
  }
}
