/** Decimal numbers read aloud: "üç tam yüzdə on dörd" (math mode) or "üç vergül bir dörd" (digit mode). */
module NumtextFloat {
  import opened Wrappers
  import opened NumtextWords
  import opened NumtextConvert
  import NumtextOrdinal
  import Unicode
  import GoInt

  /** Go's Mode is an int; only the two named values write a fractional part. */
  type Mode = int
  const MathMode: Mode := 0
  const DigitMode: Mode := 1

  /** Fractional digit counts that have a word of their own in Denominators. */
  const MaxDenomDigits: nat := 3
  /** The largest exponent of the powers-of-ten table. */
  const MaxExponent: nat := 18

  predicate IsSep(c: char) { c == '.' || c == ',' }

  /** strings.IndexAny(s, ".,"): the first separator's position, or -1. */
  function IndexSep(s: string): (i: int)
    ensures -1 <= i < |s|
    ensures i == -1 <==> forall j :: 0 <= j < |s| ==> !IsSep(s[j])
    ensures 0 <= i ==> IsSep(s[i]) && forall j :: 0 <= j < i ==> !IsSep(s[j])
  {
    if s == [] then -1
    else if IsSep(s[0]) then 0
    else
      var k := IndexSep(s[1..]);
      assert forall j :: 1 <= j < |s| ==> s[j] == s[1..][j - 1];
      if k == -1 then -1 else k + 1
  }

  predicate Digits(s: string) { forall i :: 0 <= i < |s| ==> GoInt.IsDigit(s[i]) }

  predicate AllZeros(s: string) { forall i :: 0 <= i < |s| ==> s[i] == '0' }

  /** allDigits: at least one byte, every one an ASCII digit. */
  method CheckAllDigits(s: string) returns (b: bool)
    ensures b == GoInt.AllDigits(s)
  {
    if s == "" {
      return false;
    }
    var i := 0;
    while i < |s|
      invariant 0 <= i <= |s|
      invariant forall j :: 0 <= j < i ==> GoInt.IsDigit(s[j])
    {
      if s[i] < '0' || s[i] > '9' {
        return false;
      }
      i := i + 1;
    }
    return true;
  }

  /** allZeros: every byte is '0' (true for the empty string). */
  method CheckAllZeros(s: string) returns (b: bool)
    ensures b == AllZeros(s)
  {
    var i := 0;
    while i < |s|
      invariant 0 <= i <= |s|
      invariant AllZeros(s[..i])
    {
      if s[i] != '0' {
        return false;
      }
      i := i + 1;
    }
    assert s[..i] == s;
    return true;
  }

  /** A digit string is all zeros exactly when its value is zero. */
  lemma {:induction false} ZerosValue(s: string)
    requires Digits(s)
    ensures AllZeros(s) <==> GoInt.DigitsValue(s) == 0
    decreases |s|
  {
    if s != [] {
      var p := s[..|s| - 1];
      ZerosValue(p);
      if AllZeros(p) && s[|s| - 1] == '0' {
        assert AllZeros(s);
      }
    }
  }

  /** A string of e digits is worth less than 10^e. */
  lemma {:induction false} DigitsBelow(s: string)
    requires Digits(s)
    ensures GoInt.DigitsValue(s) < PowerOf10(|s|)
    decreases |s|
  {
    if s != [] {
      DigitsBelow(s[..|s| - 1]);
    }
  }

  lemma {:induction false} PowerOf10Mono(a: nat, b: nat)
    requires a <= b
    ensures PowerOf10(a) <= PowerOf10(b)
    decreases b - a
  {
    if a < b {
      PowerOf10Mono(a + 1, b);
    }
  }

  lemma PowerOf10Max()
    ensures PowerOf10(MaxExponent) == MaxAbs
  {
    assert PowerOf10(6) == 1_000_000;
    assert PowerOf10(12) == 1_000_000_000_000;
    assert PowerOf10(18) == 1_000_000_000_000_000_000;
  }

  /** powerOf10Text: the cardinal text of 10^exp for 0 <= exp <= 18, and "" beyond the table. */
  function PowerOf10Text(exp: int): (r: string)
    ensures r != "" <==> 0 <= exp <= MaxExponent
  {
    if exp < 0 || exp > MaxExponent then ""
    else
      PowerOf10Mono(exp, MaxExponent);
      PowerOf10Max();
      CardinalEmpty(PowerOf10(exp));
      CardinalText(PowerOf10(exp))
  }

  /** powerOf10Text, calling convert on the table entry. */
  method PowerOf10Words(exp: int) returns (r: string)
    ensures r == PowerOf10Text(exp)
  {
    if exp < 0 || exp > MaxExponent {
      return "";
    }
    PowerOf10Mono(exp, MaxExponent);
    PowerOf10Max();
    r := Convert(PowerOf10(exp));
  }

  /** locativeSuffix, calling the backward vowel scan. */
  method Locative(s: string) returns (r: string)
    ensures r == NumtextOrdinal.LocativeSuffix(s)
  {
    var lv := NumtextOrdinal.LastVowel(s);
    if lv == 'a' || lv == 'ı' || lv == 'o' || lv == 'u' {
      r := "da";
    } else {
      r := "də";
    }
  }

  /** The denominator for a count of fractional digits: a table word up to three, else 10^digits in the locative. */
  function DenominatorWord(digits: nat): (r: string)
    requires digits >= 1
    ensures r != "" <==> digits <= MaxExponent
    ensures digits > MaxDenomDigits && r != "" ==>
      r == PowerOf10Text(digits) + NumtextOrdinal.LocativeSuffix(PowerOf10Text(digits))
  {
    if digits <= MaxDenomDigits then Denominators[digits]
    else
      var base := PowerOf10Text(digits);
      if base == "" then "" else base + NumtextOrdinal.LocativeSuffix(base)
  }

  /** The digit-mode reading of the fractional digits: a space and a digit word for each digit. */
  function DigitsText(frac: string): string
    requires Digits(frac)
  {
    if frac == [] then ""
    else DigitsText(frac[..|frac| - 1]) + " " + Ones[frac[|frac| - 1] as int - '0' as int]
  }

  /** The name of each fractional digit, in order. */
  function DigitNames(frac: string): (ws: seq<string>)
    requires Digits(frac)
    ensures |ws| == |frac|
  {
    seq(|frac|, i requires 0 <= i < |frac| => Ones[frac[i] as int - '0' as int])
  }

  /**
   * What convertFloat appends after the whole part, or None where it returns "":
   * math mode needs a numerator it can read and a denominator for the digit count.
   */
  function FractionText(frac: string, mode: Mode): Option<string>
    requires GoInt.AllDigits(frac)
  {
    if mode == MathMode then
      match GoInt.ParseInt(frac)
      case None => None
      case Some(num) =>
        var numText := CardinalText(num);
        var denom := DenominatorWord(|frac|);
        if numText == "" || denom == "" then None
        else Some(" " + WordExact + " " + denom + " " + numText)
    else if mode == DigitMode then Some(" " + WordComma + DigitsText(frac))
    else Some("")
  }

  /** The whole part's cardinal followed by the fractional reading, or "" where either fails. */
  function Reading(w: int, frac: string, mode: Mode): string
    requires GoInt.AllDigits(frac)
  {
    match FractionText(frac, mode)
    case None => ""
    case Some(f) =>
      var wholeText := CardinalText(w);
      if wholeText == "" then "" else wholeText + f
  }

  /** convertFloat after the separator has been found: the whole and fractional digit strings. */
  function DecimalText(negative: bool, whole: string, frac: string, mode: Mode): string {
    if (whole != "" && !GoInt.AllDigits(whole)) || !GoInt.AllDigits(frac) then ""
    else
      match GoInt.ParseInt(if whole == "" then "0" else whole)
      case None => ""
      case Some(w) =>
        var reading := Reading(w, frac, mode);
        if reading == "" then ""
        else if negative && !(w == 0 && AllZeros(frac)) then WordNegative + " " + reading
        else reading
  }

  /**
   * convertFloat without a separator, as written: strconv.ParseInt accepts
   * a sign of its own after the one already read, and the negation wraps
   * at 64 bits.
   */
  function IntegerText(negative: bool, u: string): string {
    match GoInt.ParseInt(u)
    case None => ""
    case Some(v) => CardinalText(if negative then NegWrap(v) else v)
  }

  /** convertFloat without a separator, as evidently intended: only digits after the one sign. */
  function IntegerTextIntended(negative: bool, u: string): string {
    if !GoInt.AllDigits(u) then ""
    else
      match GoInt.ParseInt(u)
      case None => ""
      case Some(v) => CardinalText(if negative then -v else v)
  }

  /** convertFloat once the sign is read: an integer, or the parts around the first separator. */
  function UnsignedText(negative: bool, u: string, mode: Mode): string {
    SplitText(negative, u, IndexSep(u), mode)
  }

  /** The reading of u with its first separator at i, or none when i is -1. */
  function SplitText(negative: bool, u: string, i: int, mode: Mode): string
    requires -1 <= i < |u|
  {
    if i == -1 then IntegerText(negative, u)
    else DecimalText(negative, u[..i], u[i + 1..], mode)
  }

  /** The text convertFloat produces for s. */
  function FloatText(s: string, mode: Mode): string {
    var t := Unicode.TrimSpace(s);
    if t == "" then ""
    else UnsignedText(t[0] == '-', if t[0] == '-' || t[0] == '+' then t[1..] else t, mode)
  }

  /** Writes the digit-mode words for frac after b. */
  method WriteDigits(b: string, frac: string) returns (b': string)
    requires Digits(frac)
    ensures b' == b + DigitsText(frac)
  {
    b' := b;
    var i := 0;
    while i < |frac|
      invariant 0 <= i <= |frac|
      invariant b' == b + DigitsText(frac[..i])
    {
      var d := frac[i] as int - '0' as int;
      b' := b' + " " + Ones[d];
      assert frac[..i + 1][..i] == frac[..i];
      i := i + 1;
    }
    assert frac[..i] == frac;
  }

  /** The fractional half of convertFloat for one mode. */
  method Fraction(frac: string, mode: Mode) returns (f: Option<string>)
    requires GoInt.AllDigits(frac)
    ensures f == FractionText(frac, mode)
  {
    if mode == MathMode {
      var num := GoInt.ParseInt(frac);
      if num.None? {
        return None;
      }
      var numText := Convert(num.value);
      if numText == "" {
        return None;
      }
      var denom: string;
      if |frac| <= MaxDenomDigits {
        denom := Denominators[|frac|];
      } else {
        var base := PowerOf10Words(|frac|);
        if base == "" {
          return None;
        }
        var loc := Locative(base);
        denom := base + loc;
      }
      f := Some(" " + WordExact + " " + denom + " " + numText);
    } else if mode == DigitMode {
      var digits := WriteDigits(" " + WordComma, frac);
      f := Some(digits);
    } else {
      f := Some("");
    }
  }

  /** convertFloat from the separator on. */
  method ConvertDecimal(negative: bool, whole: string, frac: string, mode: Mode) returns (r: string)
    ensures r == DecimalText(negative, whole, frac, mode)
  {
    var wholeOk := CheckAllDigits(whole);
    var fracOk := CheckAllDigits(frac);
    if (whole != "" && !wholeOk) || !fracOk || frac == "" {
      return "";
    }
    var w := if whole == "" then "0" else whole;
    var wholeVal := GoInt.ParseInt(w);
    if wholeVal.None? {
      return "";
    }
    var neg := negative;
    var zeros := CheckAllZeros(frac);
    if neg && wholeVal.value == 0 && zeros {
      neg := false;
    }
    var reading := WriteReading(wholeVal.value, frac, mode);
    if reading == "" {
      return "";
    }
    r := reading;
    if neg {
      r := WordNegative + " " + reading;
    }
  }

  /** The whole part's text and then the fractional part. */
  method WriteReading(w: int, frac: string, mode: Mode) returns (r: string)
    requires GoInt.InInt64(w) && GoInt.AllDigits(frac)
    ensures r == Reading(w, frac, mode)
  {
    var wholeText := Convert(w);
    if wholeText == "" {
      return "";
    }
    var f := Fraction(frac, mode);
    if f.None? {
      return "";
    }
    r := wholeText + f.value;
  }

  /** convertFloat: trim, one optional sign, then an integer or a decimal. */
  method ConvertFloat(s: string, mode: Mode) returns (r: string)
    ensures r == FloatText(s, mode)
  {
    var t := Unicode.TrimSpace(s);
    if t == "" {
      return "";
    }
    var negative := false;
    var u := t;
    if t[0] == '-' {
      negative := true;
      u := t[1..];
    } else if t[0] == '+' {
      u := t[1..];
    }
    r := ConvertUnsigned(negative, u, mode);
  }

  /** convertFloat after the sign: look for a separator. */
  method ConvertUnsigned(negative: bool, u: string, mode: Mode) returns (r: string)
    ensures r == UnsignedText(negative, u, mode)
  {
    var i := IndexSep(u);
    if i == -1 {
      r := ConvertInteger(negative, u);
    } else {
      r := ConvertDecimal(negative, u[..i], u[i + 1..], mode);
      UnsignedAt(negative, u, mode, i);
    }
  }

  /** With a separator at i, the unsigned text is the decimal reading of the parts around it. */
  lemma UnsignedAt(negative: bool, u: string, mode: Mode, i: int)
    requires i == IndexSep(u) && i != -1
    ensures UnsignedText(negative, u, mode) == DecimalText(negative, u[..i], u[i + 1..], mode)
  {
    assert UnsignedText(negative, u, mode) == SplitText(negative, u, i, mode);
  }

  /** convertFloat without a separator: ParseInt, then the sign read before it. */
  method ConvertInteger(negative: bool, u: string) returns (r: string)
    ensures r == IntegerText(negative, u)
  {
    var val := GoInt.ParseInt(u);
    if val.None? {
      IntegerTextUnparsed(negative, u);
      return "";
    }
    var v := val.value;
    if negative {
      v := NegWrap(v);
    }
    r := Convert(v);
    IntegerTextParsed(negative, u, v, r);
  }

  lemma IntegerTextParsed(negative: bool, u: string, n: int, r: string)
    requires GoInt.ParseInt(u).Some?
    requires n == if negative then NegWrap(GoInt.ParseInt(u).value) else GoInt.ParseInt(u).value
    requires r == CardinalText(n)
    ensures IntegerText(negative, u) == r
  {
  }

  /** Go's int64 negation: -v wrapped at 64 bits, so the most negative value stays as it is. */
  function NegWrap(v: int): (r: int)
    ensures GoInt.InInt64(r)
  {
    GoInt.Wrap64(-v)
  }

  /** The empty reading when ParseInt fails. */
  lemma IntegerTextUnparsed(negative: bool, u: string)
    requires GoInt.ParseInt(u).None?
    ensures IntegerText(negative, u) == ""
  {
  }

  /** The first separator is found where it is. */
  lemma IndexSepAt(u: string, i: int)
    requires 0 <= i < |u| && IsSep(u[i])
    requires forall j :: 0 <= j < i ==> !IsSep(u[j])
    ensures IndexSep(u) == i
  {
  }

  /** The sign is read off the first rune and the rest is the unsigned text. */
  lemma Unsigned(sign: string, u: string)
    requires sign == "" || sign == "-" || sign == "+"
    requires u != [] && u[0] != '-' && u[0] != '+'
    requires !Unicode.IsSpace(u[0]) && !Unicode.IsSpace(u[|u| - 1])
    ensures var t := Unicode.TrimSpace(sign + u);
      t != "" && (t[0] == '-') == (sign == "-") &&
      (if t[0] == '-' || t[0] == '+' then t[1..] else t) == u
  {
    var t := sign + u;
    assert t[|sign|..] == u;
    Unicode.TrimSpaceId(t);
  }

  /** A signed text reads as its unsigned rest, with the sign passed on. */
  lemma FloatSigned(sign: string, u: string, mode: Mode)
    requires sign == "" || sign == "-" || sign == "+"
    requires u != [] && u[0] != '-' && u[0] != '+'
    requires !Unicode.IsSpace(u[0]) && !Unicode.IsSpace(u[|u| - 1])
    ensures FloatText(sign + u, mode) == UnsignedText(sign == "-", u, mode)
  {
    Unsigned(sign, u);
  }

  /** A signed decimal with its separator reads as DecimalText of the parts around the separator. */
  lemma FloatDecimal(sign: string, whole: string, sep: char, frac: string, mode: Mode)
    requires sign == "" || sign == "-" || sign == "+"
    requires Digits(whole) && IsSep(sep)
    requires frac == [] || !Unicode.IsSpace(frac[|frac| - 1])
    ensures FloatText(sign + whole + [sep] + frac, mode) == DecimalText(sign == "-", whole, frac, mode)
  {
    var u := whole + [sep] + frac;
    assert sign + whole + [sep] + frac == sign + u;
    assert u[|u| - 1] == if frac == [] then sep else frac[|frac| - 1];
    assert u[0] == if whole == [] then sep else whole[0];
    FloatSigned(sign, u, mode);
    UnsignedDecimal(sign == "-", whole, sep, frac, mode);
  }

  lemma UnsignedDecimal(negative: bool, whole: string, sep: char, frac: string, mode: Mode)
    requires Digits(whole) && IsSep(sep)
    ensures UnsignedText(negative, whole + [sep] + frac, mode) == DecimalText(negative, whole, frac, mode)
  {
    var u := whole + [sep] + frac;
    assert u[|whole|] == sep;
    IndexSepAt(u, |whole|);
    assert u[..|whole|] == whole && u[|whole| + 1..] == frac;
  }

  /** Input without a separator reads as a plain integer, whatever the mode. */
  lemma ModeIgnored(s: string, m1: Mode, m2: Mode)
    requires forall j :: 0 <= j < |s| ==> !IsSep(s[j])
    ensures FloatText(s, m1) == FloatText(s, m2)
  {
    var t := Unicode.TrimSpace(s);
    TrimNoSep(s);
    if t != "" {
      var u := if t[0] == '-' || t[0] == '+' then t[1..] else t;
      assert forall j :: 0 <= j < |u| ==> !IsSep(u[j]);
      NoSepInteger(t[0] == '-', u, m1);
      NoSepInteger(t[0] == '-', u, m2);
    }
  }

  /** Trimming white space adds no separator. */
  lemma TrimNoSep(s: string)
    requires forall j :: 0 <= j < |s| ==> !IsSep(s[j])
    ensures var t := Unicode.TrimSpace(s); forall j :: 0 <= j < |t| ==> !IsSep(t[j])
  {
    var t := Unicode.TrimSpace(s);
    var l := Unicode.TrimLeft(s);
    var k :| 0 <= k <= |s| && l == s[k..];
    assert t <= l;
    assert forall j :: 0 <= j < |t| ==> t[j] == s[k + j];
  }

  /** Without a separator the unsigned text is the integer reading. */
  lemma NoSepInteger(negative: bool, u: string, mode: Mode)
    requires forall j :: 0 <= j < |u| ==> !IsSep(u[j])
    ensures UnsignedText(negative, u, mode) == IntegerText(negative, u)
  {
  }

  /** An unsigned or signed digit string reads as the cardinal of its value. */
  lemma FloatInteger(sign: string, d: string, mode: Mode)
    requires sign == "" || sign == "-" || sign == "+"
    requires GoInt.AllDigits(d) && GoInt.DigitsValue(d) <= MaxAbs
    ensures var v: int := GoInt.DigitsValue(d); FloatText(sign + d, mode) == CardinalText(if sign == "-" then -v else v)
  {
    FloatSigned(sign, d, mode);
    assert IndexSep(d) == -1;
    var v: int := GoInt.DigitsValue(d);
    IntegerDigits(sign == "-", d, v, if sign == "-" then -v else v);
  }

  /** A digit string within the cardinal range reads as the cardinal of its value, signed. */
  lemma IntegerDigits(negative: bool, d: string, v: int, n: int)
    requires GoInt.AllDigits(d) && v == GoInt.DigitsValue(d) && v <= MaxAbs
    requires n == if negative then -v else v
    ensures IntegerText(negative, d) == CardinalText(n)
  {
    DigitsParse(d, v);
    IntegerParsed(negative, d, v, n);
  }

  /** A digit string within the cardinal range parses to its value. */
  lemma DigitsParse(d: string, v: int)
    requires GoInt.AllDigits(d) && v == GoInt.DigitsValue(d) && v <= MaxAbs
    ensures GoInt.ParseInt(d) == Some(v)
  {
    GoInt.ParseIntDigits(d);
  }

  /** A digit string that parses to v reads as the cardinal of v, signed. */
  lemma IntegerParsed(negative: bool, d: string, v: int, n: int)
    requires GoInt.AllDigits(d) && GoInt.ParseInt(d) == Some(v)
    requires n == if negative then -v else v
    ensures IntegerText(negative, d) == CardinalText(n)
  {
    IntegerTextAgrees(negative, d);
  }

  /** Math mode reads a fraction of at most 18 digits as its denominator and then its numerator. */
  lemma MathFraction(frac: string)
    requires GoInt.AllDigits(frac)
    ensures FractionText(frac, MathMode).Some? <==> |frac| <= MaxExponent
    ensures |frac| <= MaxExponent ==>
      FractionText(frac, MathMode) == Some(" " + WordExact + " " + DenominatorWord(|frac|) + " " + CardinalText(GoInt.DigitsValue(frac)))
  {
    var v := GoInt.DigitsValue(frac);
    if |frac| <= MaxExponent {
      DigitsFit(frac);
      MathNumerator(frac, v);
    } else {
      MathTooLong(frac);
    }
  }

  /** At most 18 digits are worth at most 10^18. */
  lemma DigitsFit(frac: string)
    requires Digits(frac) && |frac| <= MaxExponent
    ensures GoInt.DigitsValue(frac) <= MaxAbs
  {
    DigitsBelow(frac);
    PowerOf10Mono(|frac|, MaxExponent);
    PowerOf10Max();
  }

  lemma MathNumerator(frac: string, v: int)
    requires GoInt.AllDigits(frac) && v == GoInt.DigitsValue(frac) && v <= MaxAbs && |frac| <= MaxExponent
    ensures FractionText(frac, MathMode) == Some(" " + WordExact + " " + DenominatorWord(|frac|) + " " + CardinalText(v))
  {
    DigitsParse(frac, v);
    CardinalEmpty(v);
    MathParsed(frac, v);
  }

  /** A numerator that parses and has a text, over a digit count with a denominator. */
  lemma MathParsed(frac: string, v: int)
    requires GoInt.AllDigits(frac) && GoInt.ParseInt(frac) == Some(v) && CardinalText(v) != "" && 1 <= |frac| <= MaxExponent
    ensures FractionText(frac, MathMode) == Some(" " + WordExact + " " + DenominatorWord(|frac|) + " " + CardinalText(v))
  {
  }

  lemma MathTooLong(frac: string)
    requires GoInt.AllDigits(frac) && |frac| > MaxExponent
    ensures FractionText(frac, MathMode) == None
  {
  }

  /** The digit words are tokens. */
  lemma DigitNameTokens(frac: string)
    requires Digits(frac)
    ensures Tokens(DigitNames(frac))
  {
    OnesTokens();
    assert Token(Ones[0]);
  }

  /** The digit-mode reading is a space before each digit's name, joined by single spaces. */
  lemma {:induction false} DigitsTextWords(frac: string)
    requires GoInt.AllDigits(frac)
    ensures DigitsText(frac) == " " + Unicode.Join(DigitNames(frac), " ")
    decreases |frac|
  {
    var p := frac[..|frac| - 1];
    var w := Ones[frac[|frac| - 1] as int - '0' as int];
    DigitNamesSnoc(frac);
    if p == [] {
      assert DigitNames(frac) == [w];
    } else {
      DigitsTextWords(p);
      var ns := DigitNames(p);
      Unicode.JoinAppend(ns, [w], " ");
      SpaceBefore(DigitsText(p), Unicode.Join(ns, " "), w);
    }
  }

  /** Moving the leading space of a joined text past one more word. */
  lemma SpaceBefore(a: string, j: string, w: string)
    requires a == " " + j
    ensures a + " " + w == " " + (j + " " + w)
  {
  }

  /** The names of a digit string are those of its prefix and then the last digit's. */
  lemma DigitNamesSnoc(frac: string)
    requires Digits(frac) && frac != []
    ensures DigitNames(frac) == DigitNames(frac[..|frac| - 1]) + [Ones[frac[|frac| - 1] as int - '0' as int]]
  {
  }

  /** Digit mode writes one word per fractional digit: splitting its text gives the digit names back. */
  lemma DigitFraction(frac: string)
    requires GoInt.AllDigits(frac)
    ensures FractionText(frac, DigitMode) == Some(" " + WordComma + DigitsText(frac))
    ensures Unicode.Fields(DigitsText(frac)) == DigitNames(frac)
  {
    DigitsTextWords(frac);
    DigitNameTokens(frac);
    var j := Unicode.Join(DigitNames(frac), " ");
    assert (" " + j)[1..] == j;
    Unicode.FieldsOfJoin(DigitNames(frac));
  }

  /** The minus sign is dropped exactly when the whole and fractional parts are both worth zero. */
  lemma NegativeZero(whole: string, frac: string, mode: Mode)
    requires Digits(whole) && GoInt.AllDigits(frac)
    requires DecimalText(false, whole, frac, mode) != ""
    ensures var w := if whole == "" then 0 else GoInt.DigitsValue(whole);
      DecimalText(true, whole, frac, mode) ==
        if w == 0 && GoInt.DigitsValue(frac) == 0 then DecimalText(false, whole, frac, mode)
        else WordNegative + " " + DecimalText(false, whole, frac, mode)
  {
    ZerosValue(frac);
    var ws := if whole == "" then "0" else whole;
    assert GoInt.DigitsValue(ws) == if whole == "" then 0 else GoInt.DigitsValue(whole);
    GoInt.ParseIntDigits(ws);
  }

  /** As written, a second sign after the first is accepted: "--5" reads as five. */
  lemma DoubleSignAsWritten()
    ensures IntegerText(true, "-5") == "beş"
    ensures IntegerTextIntended(true, "-5") == ""
  {
    MinusFive();
    GoInt.Wrap64Id(5);
    FiveText();
    assert !GoInt.AllDigits("-5");
  }

  /** The whole conversion as written: "--5" reads as "beş", a positive five. */
  lemma DoubleSignFloat(mode: Mode)
    ensures FloatText("--5", mode) == "beş"
  {
    var t := "--5";
    assert !Unicode.IsSpace(t[0]) && !Unicode.IsSpace(t[|t| - 1]);
    Unicode.TrimSpaceId(t);
    assert t[1..] == "-5";
    assert IndexSep("-5") == -1;
    DoubleSignAsWritten();
  }

  /** strconv.ParseInt reads "-5" as minus five. */
  lemma MinusFive()
    ensures GoInt.ParseInt("-5") == Some(-5)
  {
    assert "-5"[1..] == "5";
    assert GoInt.DigitsValue("5") == 5;
  }

  /** Five reads as "beş". */
  lemma FiveText()
    ensures CardinalText(5) == "beş"
  {
    CardinalSmall(5);
    FiveGroup();
  }

  lemma FiveGroup()
    ensures GroupText(5) == "beş"
  {
    assert GroupWords(5) == ["beş"];
  }

  /** The fix only rejects a second sign: on digit strings both readings agree. */
  lemma IntegerTextAgrees(negative: bool, u: string)
    requires GoInt.AllDigits(u)
    ensures IntegerTextIntended(negative, u) == IntegerText(negative, u)
  {
    if GoInt.ParseInt(u).Some? {
      GoInt.Wrap64Id(-GoInt.ParseInt(u).value);
    }
  }

  /** The integer reading of a digit string that parses. */
  lemma IntegerValue(negative: bool, u: string)
    requires IntegerTextIntended(negative, u) != ""
    ensures GoInt.AllDigits(u)
    ensures var v: int := GoInt.DigitsValue(u); IntegerTextIntended(negative, u) == CardinalText(if negative then -v else v)
  {
  }

  /** With the fix, a minus sign never reads as a positive number. */
  lemma IntegerTextNegative(u: string)
    requires IntegerTextIntended(true, u) != ""
    ensures GoInt.AllDigits(u)
    ensures IntegerTextIntended(true, u) == (if GoInt.DigitsValue(u) == 0 then WordZero else WordNegative + " " + IntegerTextIntended(false, u))
  {
    IntegerValue(true, u);
    var v: int := GoInt.DigitsValue(u);
    CardinalEmpty(-v);
    GoInt.ParseIntDigits(u);
    assert IntegerTextIntended(false, u) == CardinalText(v);
    if v != 0 {
      CardinalNegative(v);
    }
  }
}
