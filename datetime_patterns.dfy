/**
 * The core of date/time extraction: the number and date-part parsers, the
 * "saat N" time-of-day pass, overlap resolution and the merging of an
 * adjacent date and time into one date-time.
 *
 * The regular-expression passes stay abstract: their results reach the
 * model as lists of Result values. Offsets are rune indices into the input.
 */
module DatetimePatterns {
  import Wrappers
  import GoInt
  import Unicode
  import Sorting
  import Overlaps
  import opened Calendar
  import opened DatetimeTypes

  /**
   * The bounds the extractor takes from its constants: the accepted years,
   * the most results kept, the widest gap a date and a time may be merged
   * across, and the largest input in bytes.
   */
  datatype Limits = Limits(minYear: int, maxYear: int, maxResults: int, maxMergeGap: int, maxInputBytes: int)

  predicate ValidLimits(lim: Limits) {
    lim.minYear <= lim.maxYear && 1 <= lim.maxResults && 0 <= lim.maxMergeGap && 0 <= lim.maxInputBytes
  }

  /** The calendar's and the clock's ranges for the parts of a date and a time. */
  const MinMonth: int := 1
  const MaxMonth: int := 12
  const MinDay: int := 1
  const MaxDay: int := 31
  const MinHour: int := 0
  const MaxHour: int := 23

  // ---------- number parsers ----------

  function Pow10(n: nat): (p: nat)
    ensures p >= 1
  {
    if n == 0 then 1 else 10 * Pow10(n - 1)
  }

  /** A string of n digits has a value below 10^n. */
  lemma {:induction false} DigitsValueBound(s: string)
    requires forall i :: 0 <= i < |s| ==> GoInt.IsDigit(s[i])
    ensures GoInt.DigitsValue(s) < Pow10(|s|)
    decreases |s|
  {
    if s != [] {
      DigitsValueBound(s[..|s| - 1]);
    }
  }

  /** parseBareNumber: a string of one or two bytes that strconv.Atoi accepts. */
  function ParseBareNumber(s: string): Wrappers.Option<int> {
    if s == [] || Unicode.ByteLen(s) > 2 then Wrappers.None else GoInt.ParseInt(s)
  }

  /**
   * A bare number is one or two characters; its value is a one-digit
   * number with a sign or a number of at most two digits.
   */
  lemma ParseBareNumberRange(s: string)
    ensures ParseBareNumber(s).Some? <==> 1 <= Unicode.ByteLen(s) <= 2 && GoInt.ParseInt(s).Some?
    ensures ParseBareNumber(s).Some? ==> 1 <= |s| <= 2 && -9 <= ParseBareNumber(s).value <= 99
  {
    Unicode.ByteLenBounds(s);
    if ParseBareNumber(s).Some? {
      var digits := if s[0] == '-' || s[0] == '+' then s[1..] else s;
      DigitsValueBound(digits);
      assert Pow10(|digits|) <= 100;
    }
  }

  /** Every character strconv.Atoi accepts is ASCII, so the byte length is the length. */
  lemma {:induction false} AsciiByteLen(s: string)
    requires forall i :: 0 <= i < |s| ==> (s[i] as int) < 0x80
    ensures Unicode.ByteLen(s) == |s|
    decreases |s|
  {
    if s != [] {
      AsciiByteLen(s[..|s| - 1]);
    }
  }

  /** parse4DigitYear: exactly four bytes that strconv.Atoi reads as a year in range. */
  function Parse4DigitYear(lim: Limits, s: string): (r: Wrappers.Option<int>)
    ensures r.Some? ==> lim.minYear <= r.value <= lim.maxYear
  {
    if Unicode.ByteLen(s) != 4 then Wrappers.None
    else
      var n := GoInt.ParseInt(s);
      if n.None? || n.value < lim.minYear || n.value > lim.maxYear then Wrappers.None else n
  }

  /** A signed number has one digit fewer than its length. */
  lemma ParseIntSigned(s: string)
    requires s != [] && GoInt.ParseInt(s).Some? && (s[0] == '-' || s[0] == '+')
    ensures -(Pow10(|s| - 1) as int) < GoInt.ParseInt(s).value < Pow10(|s| - 1)
  {
    DigitsValueBound(s[1..]);
  }

  /** What strconv.Atoi accepts is ASCII: a sign and digits. */
  lemma ParseIntAscii(s: string)
    requires GoInt.ParseInt(s).Some?
    ensures forall i :: 0 <= i < |s| ==> (s[i] as int) < 0x80
    ensures !(s[0] == '-' || s[0] == '+') ==> GoInt.AllDigits(s) && GoInt.ParseInt(s).value == GoInt.DigitsValue(s)
  {
    var signed := s[0] == '-' || s[0] == '+';
    var digits := if signed then s[1..] else s;
    forall i | 0 <= i < |s| ensures (s[i] as int) < 0x80 {
      if i > 0 || !signed {
        assert GoInt.IsDigit(digits[if signed then i - 1 else i]);
      }
    }
  }

  /**
   * When the smallest year has four digits, an accepted year is exactly four
   * decimal digits: a sign leaves room for three digits only.
   */
  lemma Parse4DigitYearDigits(lim: Limits, s: string)
    requires 1000 <= lim.minYear
    ensures Parse4DigitYear(lim, s).Some? ==> |s| == 4 && GoInt.AllDigits(s) && GoInt.DigitsValue(s) == Parse4DigitYear(lim, s).value
  {
    assert Pow10(3) == 1000;
    if Parse4DigitYear(lim, s).Some? {
      ParseIntAscii(s);
      AsciiByteLen(s);
      if s[0] == '-' || s[0] == '+' {
        ParseIntSigned(s);
      }
    }
  }

  /** The index of the first c in s, or -1 (strings.IndexByte). */
  function IndexOf(s: string, c: char): (i: int)
    ensures -1 <= i < |s|
    ensures i >= 0 ==> s[i] == c && c !in s[..i]
    ensures i == -1 ==> c !in s
  {
    if s == [] then -1
    else if s[0] == c then 0
    else
      var j := IndexOf(s[1..], c);
      assert s == [s[0]] + s[1..];
      if j < 0 then -1 else (assert s[..j + 1] == [s[0]] + s[1..][..j]; j + 1)
  }

  /**
   * parseNumberWithSuffix: the ordinal reading (the ordinal-word regular
   * expression, given as a function), else a bare number, else a bare number
   * before the first hyphen when something precedes it ("3-də" gives 3).
   */
  function ParseNumberWithSuffix(ordinal: string -> Wrappers.Option<int>, s: string): Wrappers.Option<int> {
    if ordinal(s).Some? then ordinal(s)
    else if ParseBareNumber(s).Some? then ParseBareNumber(s)
    else
      var idx := IndexOf(s, '-');
      if idx > 0 then ParseBareNumber(s[..idx]) else Wrappers.None
  }

  /**
   * Without an ordinal reading, the number is the whole word or the part
   * before its first hyphen, and lies in -9..99.
   */
  lemma ParseNumberWithSuffixRange(ordinal: string -> Wrappers.Option<int>, s: string)
    requires ordinal(s).None?
    ensures var r := ParseNumberWithSuffix(ordinal, s);
      r.Some? ==> -9 <= r.value <= 99 && (r == ParseBareNumber(s) || r == ParseBareNumber(s[..IndexOf(s, '-')]))
  {
    ParseBareNumberRange(s);
    var idx := IndexOf(s, '-');
    if idx > 0 {
      ParseBareNumberRange(s[..idx]);
    }
  }

  /** "3-də", which no ordinal reading covers, gives the hour 3. */
  lemma SuffixedHour(ordinal: string -> Wrappers.Option<int>)
    requires ordinal("3-də").None?
    ensures ParseNumberWithSuffix(ordinal, "3-də") == Wrappers.Some(3)
  {
    var s := "3-də";
    assert IndexOf(s, '-') == 1;
    assert s[..1] == "3";
    assert Unicode.ByteLen(s) > 2 by {
      Unicode.ByteLenBounds(s);
    }
    assert Unicode.ByteLen("3") == 1;
    assert GoInt.DigitsValue("3") == 3;
  }

  // ---------- date parts ----------

  /**
   * parseDateParts: the three parts as strconv.Atoi reads them, each within
   * its range, and a day that time.Date does not carry into the next month.
   */
  function ParseDateParts(lim: Limits, yearStr: string, monthStr: string, dayStr: string): Wrappers.Option<Date> {
    var y := GoInt.ParseInt(yearStr);
    if y.None? || y.value < lim.minYear || y.value > lim.maxYear then Wrappers.None
    else
      var m := GoInt.ParseInt(monthStr);
      if m.None? || m.value < MinMonth || m.value > MaxMonth then Wrappers.None
      else
        var d := GoInt.ParseInt(dayStr);
        if d.None? || d.value < MinDay || d.value > MaxDay then Wrappers.None
        else
          var t := Normalize(y.value, m.value, d.value);
          if t.day != d.value || t.month != m.value then Wrappers.None
          else Wrappers.Some(Date(y.value, m.value, d.value))
  }

  /** The parts of a date that exists in the calendar, within the year range. */
  predicate DateExists(lim: Limits, y: Wrappers.Option<int>, m: Wrappers.Option<int>, d: Wrappers.Option<int>) {
    && y.Some? && m.Some? && d.Some?
    && lim.minYear <= y.value <= lim.maxYear
    && Valid(Date(y.value, m.value, d.value))
  }

  /**
   * A date is accepted exactly when its parts parse, the year is in range
   * and the day exists in that month of that year; the result is that date.
   */
  lemma ParseDatePartsExact(lim: Limits, yearStr: string, monthStr: string, dayStr: string)
    ensures var y, m, d := GoInt.ParseInt(yearStr), GoInt.ParseInt(monthStr), GoInt.ParseInt(dayStr);
      && (ParseDateParts(lim, yearStr, monthStr, dayStr).Some? <==> DateExists(lim, y, m, d))
      && (DateExists(lim, y, m, d) ==> ParseDateParts(lim, yearStr, monthStr, dayStr) == Wrappers.Some(Date(y.value, m.value, d.value)))
  {
    var y, m, d := GoInt.ParseInt(yearStr), GoInt.ParseInt(monthStr), GoInt.ParseInt(dayStr);
    if y.Some? && m.Some? && d.Some? && 1 <= m.value <= 12 && 1 <= d.value <= 31 {
      NormalizeKeeps(y.value, m.value, d.value);
    }
  }

  /** The digits of a two-digit day or month and a four-digit year read as their values. */
  lemma PartsRead()
    ensures GoInt.ParseInt("2024") == Wrappers.Some(2024) && GoInt.ParseInt("2026") == Wrappers.Some(2026)
    ensures GoInt.ParseInt("02") == Wrappers.Some(2) && GoInt.ParseInt("04") == Wrappers.Some(4)
    ensures GoInt.ParseInt("29") == Wrappers.Some(29) && GoInt.ParseInt("30") == Wrappers.Some(30) && GoInt.ParseInt("31") == Wrappers.Some(31)
  {
    assert "2024"[..3] == "202" && "2026"[..3] == "202" && "202"[..2] == "20" && "20"[..1] == "2";
    assert GoInt.DigitsValue("20") == 20;
    assert GoInt.DigitsValue("202") == 202;
    assert GoInt.DigitsValue("2024") == 2024 && GoInt.DigitsValue("2026") == 2026;
    assert GoInt.DigitsValue("02") == 2 && GoInt.DigitsValue("04") == 4;
    assert GoInt.DigitsValue("29") == 29 && GoInt.DigitsValue("30") == 30 && GoInt.DigitsValue("31") == 31;
  }

  /** 30.02 does not exist, even in a leap year. */
  lemma NoThirtiethOfFebruary(lim: Limits)
    requires lim.minYear <= 2024 <= lim.maxYear
    ensures ParseDateParts(lim, "2024", "02", "30") == Wrappers.None
  {
    PartsRead();
    ParseDatePartsExact(lim, "2024", "02", "30");
  }

  /** 31.04 does not exist. */
  lemma NoThirtyFirstOfApril(lim: Limits)
    requires lim.minYear <= 2026 <= lim.maxYear
    ensures ParseDateParts(lim, "2026", "04", "31") == Wrappers.None
  {
    PartsRead();
    ParseDatePartsExact(lim, "2026", "04", "31");
  }

  /** 29.02 does not exist in 2026, a common year. */
  lemma NoLeapDay(lim: Limits)
    requires lim.minYear <= 2026 <= lim.maxYear
    ensures ParseDateParts(lim, "2026", "02", "29") == Wrappers.None
  {
    PartsRead();
    ParseDatePartsExact(lim, "2026", "02", "29");
  }

  /** 29.02 exists in 2024, a leap year. */
  lemma LeapDay(lim: Limits)
    requires lim.minYear <= 2024 <= lim.maxYear
    ensures ParseDateParts(lim, "2024", "02", "29") == Wrappers.Some(Date(2024, 2, 29))
  {
    PartsRead();
    ParseDatePartsExact(lim, "2024", "02", "29");
  }

  // ---------- results ----------

  /** A result is a non-empty slice of the input carrying its own text. */
  predicate SliceOf(r: Result, s: string) {
    0 <= r.start < r.end <= |s| && r.text == s[r.start..r.end]
  }

  /** Results in start order that do not overlap. */
  predicate Ordered(rs: seq<Result>) {
    forall x, y :: 0 <= x < y < |rs| ==> rs[x].end <= rs[y].start
  }

  // ---------- the "saat N" pass ----------

  /** A word of the input: its text, its Azerbaijani lower-case form and its offsets. */
  datatype Word = Word(text: string, lower: string, start: int, end: int)

  /** The words lie in the input, in order and apart, as the word splitter yields them. */
  predicate WordsIn(s: string, words: seq<Word>) {
    && (forall i :: 0 <= i < |words| ==> 0 <= words[i].start < words[i].end <= |s|)
    && (forall i, j :: 0 <= i < j < |words| ==> words[i].end <= words[j].start)
  }

  /** What one step of the pass leaves: the used flags, and the result found, if any. */
  datatype SaatOut = SaatOut(used: seq<bool>, found: Wrappers.Option<Result>)

  /**
   * One step of appendSaatTime at word i: "saat" followed by an unused
   * number word gives a time at that hour on the reference day, unless a
   * bare number precedes "saat" (a duration such as "2 saat"). An unused
   * time-of-day word before "saat" joins the span, and when it names the
   * evening (pm is true in todWords) an hour from 1 to 11 moves to the
   * afternoon. The words the result covers are marked used.
   */
  function SaatAt(s: string, words: seq<Word>, used: seq<bool>, i: int, ref: Moment,
                  todWords: map<string, bool>, ordinal: string -> Wrappers.Option<int>): SaatOut
    requires WordsIn(s, words) && |used| == |words| && 0 <= i < |words|
  {
    var none := SaatOut(used, Wrappers.None);
    if used[i] || words[i].lower != "saat" then none
    else if i + 1 >= |words| || used[i + 1] then none
    else if i > 0 && !used[i - 1] && ParseBareNumber(words[i - 1].lower).Some? then none
    else
      var h := ParseNumberWithSuffix(ordinal, words[i + 1].lower);
      if h.None? || h.value < MinHour || h.value > MaxHour then none
      else
        var tod := i > 0 && !used[i - 1] && words[i - 1].lower in todWords;
        var hour := if tod && todWords[words[i - 1].lower] && h.value < 12 && h.value > 0 then h.value + 12 else h.value;
        var spanStart := if tod then words[i - 1].start else words[i].start;
        var spanEnd := words[i + 1].end;
        var used1 := if tod then used[i - 1 := true] else used;
        var r := Result(s[spanStart..spanEnd], spanStart, spanEnd, TypeTime, Moment(ref.date, hour, 0, 0), 0, HasHour);
        SaatOut(used1[i := true][i + 1 := true], Wrappers.Some(r))
  }

  /** The state after the first k steps of the pass. */
  datatype SaatState = SaatState(used: seq<bool>, found: seq<Result>)

  function SaatUpTo(s: string, words: seq<Word>, used0: seq<bool>, k: int, ref: Moment,
                    todWords: map<string, bool>, ordinal: string -> Wrappers.Option<int>): (st: SaatState)
    requires WordsIn(s, words) && |used0| == |words| && 0 <= k <= |words|
    ensures |st.used| == |words|
  {
    if k == 0 then SaatState(used0, [])
    else
      var st := SaatUpTo(s, words, used0, k - 1, ref, todWords, ordinal);
      var o := SaatAt(s, words, st.used, k - 1, ref, todWords, ordinal);
      SaatState(o.used, st.found + (if o.found.Some? then [o.found.value] else []))
  }

  /**
   * A step only sets flags, and a result it finds is a time on the reference
   * day at an hour of the clock, whose span runs from the unused "saat" (or
   * the unused word before it) to the end of the unused number word after
   * it, both now used.
   */
  lemma SaatAtShape(s: string, words: seq<Word>, used: seq<bool>, i: int, ref: Moment,
                    todWords: map<string, bool>, ordinal: string -> Wrappers.Option<int>)
    requires WordsIn(s, words) && |used| == |words| && 0 <= i < |words|
    ensures var o := SaatAt(s, words, used, i, ref, todWords, ordinal);
      && |o.used| == |used|
      && (forall j :: 0 <= j < |used| && used[j] ==> o.used[j])
      && (o.found.None? ==> o.used == used)
      && (o.found.Some? ==>
            var r := o.found.value;
            && i + 1 < |words| && words[i].lower == "saat"
            && !used[i] && !used[i + 1] && o.used[i] && o.used[i + 1]
            && r.end == words[i + 1].end
            && (r.start == words[i].start || (i > 0 && !used[i - 1] && r.start == words[i - 1].start))
            && SliceOf(r, s)
            && r.rtype == TypeTime && r.explicit == HasHour
            && r.time == Moment(ref.date, r.time.hour, 0, 0) && MinHour <= r.time.hour <= MaxHour)
  {
  }

  /** "axşam saat 12": an evening word does not move 12 o'clock. */
  lemma NoonStays(s: string, words: seq<Word>, used: seq<bool>, i: int, ref: Moment,
                  todWords: map<string, bool>, ordinal: string -> Wrappers.Option<int>)
    requires WordsIn(s, words) && |used| == |words| && 0 < i < |words| - 1
    requires !used[i - 1] && !used[i] && !used[i + 1] && words[i].lower == "saat"
    requires ParseBareNumber(words[i - 1].lower).None?
    requires words[i - 1].lower in todWords && todWords[words[i - 1].lower]
    requires ParseNumberWithSuffix(ordinal, words[i + 1].lower) == Wrappers.Some(12)
    ensures var o := SaatAt(s, words, used, i, ref, todWords, ordinal);
      o.found.Some? && o.found.value.time.hour == 12 && o.found.value.start == words[i - 1].start
  {
  }

  /** r ends where one of the used words among the first k + 1 ends. */
  ghost predicate EndsAt(words: seq<Word>, used: seq<bool>, k: int, r: Result) {
    exists e :: 0 <= e <= k && e < |words| && e < |used| && r.end == words[e].end && used[e]
  }

  /** Every result found so far ends at a used word among the first k + 1. */
  ghost predicate EndsAtUsed(words: seq<Word>, used: seq<bool>, k: int, found: seq<Result>) {
    forall x :: 0 <= x < |found| ==> EndsAt(words, used, k, found[x])
  }

  /** Flags that stay set keep every found result ending at a used word. */
  lemma EndsAtUsedGrow(words: seq<Word>, used: seq<bool>, used1: seq<bool>, k: int, found: seq<Result>)
    requires EndsAtUsed(words, used, k, found) && |used1| == |used|
    requires forall j :: 0 <= j < |used| && used[j] ==> used1[j]
    ensures EndsAtUsed(words, used1, k + 1, found)
  {
    forall x | 0 <= x < |found| ensures EndsAt(words, used1, k + 1, found[x]) {
      var r := found[x];
      assert EndsAt(words, used, k, r);
      var e :| 0 <= e <= k && e < |words| && e < |used| && r.end == words[e].end && used[e];
      assert used1[e];
    }
  }

  lemma EndsAtUsedAdd(words: seq<Word>, used: seq<bool>, k: int, found: seq<Result>, r: Result)
    requires EndsAtUsed(words, used, k, found)
    requires 0 <= k < |words| && k < |used| && r.end == words[k].end && used[k]
    ensures EndsAtUsed(words, used, k, found + [r])
  {
    assert EndsAt(words, used, k, r);
    forall x | 0 <= x < |found + [r]| ensures EndsAt(words, used, k, (found + [r])[x]) {
      if x < |found| {
        assert (found + [r])[x] == found[x];
      }
    }
  }

  /**
   * A result that starts at an unused word k, or at an unused word k - 1
   * with word k unused too, comes after every result found so far.
   */
  lemma FoundBefore(s: string, words: seq<Word>, used: seq<bool>, k: int, found: seq<Result>, r: Result)
    requires WordsIn(s, words) && |used| == |words| && 0 <= k < |words|
    requires EndsAtUsed(words, used, k, found) && Ordered(found)
    requires !used[k]
    requires r.start == words[k].start || (k > 0 && !used[k - 1] && r.start == words[k - 1].start)
    requires r.start < r.end
    ensures Ordered(found + [r])
  {
    forall x | 0 <= x < |found| ensures found[x].end <= r.start {
      assert EndsAt(words, used, k, found[x]);
      var e :| 0 <= e <= k && e < |words| && e < |used| && found[x].end == words[e].end && used[e];
      if r.start == words[k].start {
        assert e < k;
      } else {
        assert e < k - 1;
      }
    }
    var f := found + [r];
    forall x, y | 0 <= x < y < |f| ensures f[x].end <= f[y].start {
      if y < |found| {
        assert f[x] == found[x] && f[y] == found[y];
      } else {
        assert f[x] == found[x] && f[y] == r;
      }
    }
  }

  lemma SaatStep(s: string, words: seq<Word>, used0: seq<bool>, k: int, ref: Moment,
                 todWords: map<string, bool>, ordinal: string -> Wrappers.Option<int>)
    requires WordsIn(s, words) && |used0| == |words| && 0 <= k < |words|
    requires var st := SaatUpTo(s, words, used0, k, ref, todWords, ordinal);
      Ordered(st.found) && EndsAtUsed(words, st.used, k, st.found)
    ensures var st := SaatUpTo(s, words, used0, k + 1, ref, todWords, ordinal);
      Ordered(st.found) && EndsAtUsed(words, st.used, k + 1, st.found)
  {
    var st := SaatUpTo(s, words, used0, k, ref, todWords, ordinal);
    var o := SaatAt(s, words, st.used, k, ref, todWords, ordinal);
    SaatAtShape(s, words, st.used, k, ref, todWords, ordinal);
    EndsAtUsedGrow(words, st.used, o.used, k, st.found);
    if o.found.Some? {
      var r := o.found.value;
      FoundBefore(s, words, st.used, k, st.found, r);
      EndsAtUsedAdd(words, o.used, k + 1, st.found, r);
    }
  }

  /** The times the pass finds never overlap and come in text order. */
  lemma {:induction false} SaatOrdered(s: string, words: seq<Word>, used0: seq<bool>, k: int, ref: Moment,
                                       todWords: map<string, bool>, ordinal: string -> Wrappers.Option<int>)
    requires WordsIn(s, words) && |used0| == |words| && 0 <= k <= |words|
    ensures var st := SaatUpTo(s, words, used0, k, ref, todWords, ordinal);
      Ordered(st.found) && EndsAtUsed(words, st.used, k, st.found)
  {
    if k > 0 {
      SaatOrdered(s, words, used0, k - 1, ref, todWords, ordinal);
      SaatStep(s, words, used0, k - 1, ref, todWords, ordinal);
    }
  }

  /** Every time the pass finds is a slice of the input at an hour of the clock on the reference day. */
  lemma {:induction false} SaatFound(s: string, words: seq<Word>, used0: seq<bool>, k: int, ref: Moment,
                                     todWords: map<string, bool>, ordinal: string -> Wrappers.Option<int>)
    requires WordsIn(s, words) && |used0| == |words| && 0 <= k <= |words|
    ensures var st := SaatUpTo(s, words, used0, k, ref, todWords, ordinal);
      && |st.found| <= k
      && (forall j :: 0 <= j < |used0| && used0[j] ==> st.used[j])
      && forall r :: r in st.found ==>
           SliceOf(r, s) && r.rtype == TypeTime && r.explicit == HasHour
           && r.time.date == ref.date && MinHour <= r.time.hour <= MaxHour
  {
    if k > 0 {
      SaatFound(s, words, used0, k - 1, ref, todWords, ordinal);
      var st := SaatUpTo(s, words, used0, k - 1, ref, todWords, ordinal);
      SaatAtShape(s, words, st.used, k - 1, ref, todWords, ordinal);
    }
  }

  /**
   * appendSaatTime: one step per word, in order, updating the shared used
   * flags in place and appending each time found.
   */
  method AppendSaatTime(all: seq<Result>, s: string, words: seq<Word>, used: array<bool>, ref: Moment,
                        todWords: map<string, bool>, ordinal: string -> Wrappers.Option<int>) returns (r: seq<Result>)
    requires WordsIn(s, words) && used.Length == |words|
    modifies used
    ensures var st := SaatUpTo(s, words, old(used[..]), |words|, ref, todWords, ordinal);
      r == all + st.found && used[..] == st.used
  {
    ghost var used0 := used[..];
    r := all;
    var i := 0;
    while i < |words|
      invariant 0 <= i <= |words|
      invariant var st := SaatUpTo(s, words, used0, i, ref, todWords, ordinal);
        r == all + st.found && used[..] == st.used
    {
      var found := SaatTimeAt(s, words, used, i, ref, todWords, ordinal);
      if found.Some? {
        r := r + [found.value];
      }
      i := i + 1;
    }
  }

  /** One pass of appendSaatTime's loop at word i: the step SaatAt describes, on the flags in place. */
  method SaatTimeAt(s: string, words: seq<Word>, used: array<bool>, i: int, ref: Moment,
                    todWords: map<string, bool>, ordinal: string -> Wrappers.Option<int>) returns (found: Wrappers.Option<Result>)
    requires WordsIn(s, words) && used.Length == |words| && 0 <= i < |words|
    modifies used
    ensures var o := SaatAt(s, words, old(used[..]), i, ref, todWords, ordinal);
      used[..] == o.used && found == o.found
  {
    found := Wrappers.None;
    var w := words[i];
    if used[i] || w.lower != "saat" {
    } else if i + 1 >= |words| || used[i + 1] {
    } else if i > 0 && !used[i - 1] && ParseBareNumber(words[i - 1].lower).Some? {
    } else {
      var h := ParseNumberWithSuffix(ordinal, words[i + 1].lower);
      if h.Some? && MinHour <= h.value <= MaxHour {
        var hour := h.value;
        var spanStart := w.start;
        var spanEnd := words[i + 1].end;
        if i > 0 && !used[i - 1] && words[i - 1].lower in todWords {
          if todWords[words[i - 1].lower] && hour < 12 && hour > 0 {
            hour := hour + 12;
          }
          spanStart := words[i - 1].start;
          used[i - 1] := true;
        }
        used[i] := true;
        used[i + 1] := true;
        found := Wrappers.Some(Result(s[spanStart..spanEnd], spanStart, spanEnd, TypeTime, Moment(ref.date, hour, 0, 0), 0, HasHour));
      }
    }
  }


  // ---------- overlap resolution ----------

  /** The sort order of resolveOverlaps: by start, then the longer first. */
  predicate ResultLess(a: Result, b: Result) {
    a.start < b.start || (a.start == b.start && b.end - b.start < a.end - a.start)
  }

  function ResultOrder(lim: Limits): Overlaps.Order<Result> {
    Overlaps.Order((r: Result) => r.start, (r: Result) => r.end, ResultLess, lim.maxResults)
  }

  lemma ResultOrderOk(lim: Limits)
    ensures Sorting.Preorder(ResultOrder(lim).less) && Overlaps.StartFirst(ResultOrder(lim))
  {
  }

  /**
   * resolveOverlaps: at most maxResults results, all from the input,
   * disjoint in start order, each the longest at its start; below the cap
   * every input result is kept or starts inside a kept one, and the first
   * kept result starts first. Zero or one result come back unchanged.
   */
  method ResolveOverlaps(lim: Limits, results: seq<Result>) returns (out: seq<Result>)
    requires 1 <= lim.maxResults
    requires forall r :: r in results ==> 0 <= r.start < r.end
    ensures Overlaps.Resolved(ResultOrder(lim), results, out)
    ensures |results| <= 1 ==> out == results
  {
    ResultOrderOk(lim);
    out := Overlaps.Resolve(ResultOrder(lim), results);
  }

  /** Kept results are in start order and do not overlap. */
  lemma ResolvedOrdered(lim: Limits, results: seq<Result>, out: seq<Result>)
    requires Overlaps.Resolved(ResultOrder(lim), results, out)
    ensures Ordered(out) && (forall r :: r in out ==> r in results)
  {
    forall x, y | 0 <= x < y < |out| ensures out[x].end <= out[y].start {
      assert ResultOrder(lim).end(out[x]) <= ResultOrder(lim).start(out[y]);
    }
  }

  // ---------- merging ----------

  /** A result lies within the input. */
  predicate InText(r: Result, s: string) {
    0 <= r.start < r.end <= |s|
  }

  /**
   * tryMerge: a date and a time, in either order, become one date-time over
   * the span of both, with the date's day and the time's clock, and the
   * explicit components of both.
   */
  function TryMerge(a: Result, b: Result, s: string): Wrappers.Option<Result>
    requires InText(a, s) && InText(b, s)
  {
    if (a.rtype == TypeDate && b.rtype == TypeTime) || (a.rtype == TypeTime && b.rtype == TypeDate) then
      var dateR := if a.rtype == TypeDate then a else b;
      var timeR := if a.rtype == TypeDate then b else a;
      var start := if dateR.start <= timeR.start then dateR.start else timeR.start;
      var end := if dateR.end >= timeR.end then dateR.end else timeR.end;
      var time := Moment(dateR.time.date, timeR.time.hour, timeR.time.minute, timeR.time.second);
      Wrappers.Some(Result(s[start..end], start, end, TypeDateTime, time, 0, dateR.explicit | timeR.explicit))
    else Wrappers.None
  }

  /** A flag of a union is set exactly when it is set in either part. */
  lemma UnionHas(a: Components, b: Components, k: nat)
    requires k < 6
    ensures Has(a | b, k) <==> Has(a, k) || Has(b, k)
  {
  }

  /** Only a date next to a time merges, in either order. */
  lemma TryMergeWhen(a: Result, b: Result, s: string)
    requires InText(a, s) && InText(b, s)
    ensures TryMerge(a, b, s).Some? <==>
      (a.rtype == TypeDate && b.rtype == TypeTime) || (a.rtype == TypeTime && b.rtype == TypeDate)
  {
  }

  /**
   * The merged result is a date-time slice covering both, dated by the date
   * and timed by the time.
   */
  lemma TryMergeSpan(a: Result, b: Result, s: string)
    requires InText(a, s) && InText(b, s)
    requires TryMerge(a, b, s).Some?
    ensures var m := TryMerge(a, b, s).value;
      var dateR := if a.rtype == TypeDate then a else b;
      var timeR := if a.rtype == TypeDate then b else a;
      && m.rtype == TypeDateTime && SliceOf(m, s)
      && m.start <= a.start && m.start <= b.start && a.end <= m.end && b.end <= m.end
      && (m.start == a.start || m.start == b.start) && (m.end == a.end || m.end == b.end)
      && m.time == Moment(dateR.time.date, timeR.time.hour, timeR.time.minute, timeR.time.second)
  {
  }

  /** A component is explicit in the merge exactly when it is explicit in either part. */
  lemma TryMergeExplicit(a: Result, b: Result, s: string, k: nat)
    requires InText(a, s) && InText(b, s) && k < 6
    requires TryMerge(a, b, s).Some?
    ensures Has(TryMerge(a, b, s).value.explicit, k) <==> Has(a.explicit, k) || Has(b.explicit, k)
  {
    UnionHas(a.explicit, b.explicit, k);
    UnionHas(b.explicit, a.explicit, k);
  }

  /** Every result lies within the input. */
  predicate AllIn(rs: seq<Result>, s: string) {
    forall r :: r in rs ==> InText(r, s)
  }

  lemma AllInTail(rs: seq<Result>, s: string, n: nat)
    requires AllIn(rs, s) && n <= |rs|
    ensures AllIn(rs[n..], s)
  {
    assert forall r :: r in rs[n..] ==> r in rs;
  }

  /** Whether the first two results merge: a gap of 0 to maxGap and a date beside a time. */
  predicate MergesHead(rs: seq<Result>, s: string, maxGap: int)
    requires AllIn(rs, s)
  {
    |rs| >= 2 && 0 <= rs[1].start - rs[0].end <= maxGap && TryMerge(rs[0], rs[1], s).Some?
  }

  /** How many results the first merged result takes up. */
  function Step(rs: seq<Result>, s: string, maxGap: int): (n: nat)
    requires AllIn(rs, s) && rs != []
    ensures 1 <= n <= |rs|
  {
    if MergesHead(rs, s, maxGap) then 2 else 1
  }

  /** The first merged result: the merge of the first two, or the first unchanged. */
  function Head(rs: seq<Result>, s: string, maxGap: int): Result
    requires AllIn(rs, s) && rs != []
  {
    if MergesHead(rs, s, maxGap) then TryMerge(rs[0], rs[1], s).value else rs[0]
  }

  /** mergeAdjacent's result, pair by pair from the front. */
  function Merged(rs: seq<Result>, s: string, maxGap: int): seq<Result>
    requires AllIn(rs, s)
    decreases |rs|
  {
    if rs == [] then []
    else
      var n := Step(rs, s, maxGap);
      AllInTail(rs, s, n);
      [Head(rs, s, maxGap)] + Merged(rs[n..], s, maxGap)
  }

  /** One step of the walk at index i: merge results i and i + 1, or keep result i. */
  lemma MergedUnfold(rs: seq<Result>, s: string, maxGap: int, i: nat)
    requires AllIn(rs, s) && i < |rs|
    ensures AllIn(rs[i..], s) && rs[i] in rs
    ensures var pair := i + 1 < |rs| && 0 <= rs[i + 1].start - rs[i].end <= maxGap
                        && (assert rs[i + 1] in rs; TryMerge(rs[i], rs[i + 1], s).Some?);
      var n := if pair then 2 else 1;
      && AllIn(rs[i + n..], s)
      && Merged(rs[i..], s, maxGap)
         == [if pair then TryMerge(rs[i], rs[i + 1], s).value else rs[i]] + Merged(rs[i + n..], s, maxGap)
  {
    var rest := rs[i..];
    AllInTail(rs, s, i);
    var n := Step(rest, s, maxGap);
    AllInTail(rest, s, n);
    assert rest[n..] == rs[i + n..];
    assert rest[0] == rs[i];
    if i + 1 < |rs| {
      assert rest[1] == rs[i + 1];
    }
  }

  /** m is the merge of results j and j + 1, which lie 0 to maxGap apart. */
  ghost predicate MergeOf(rs: seq<Result>, s: string, maxGap: int, j: int, m: Result) {
    && 0 <= j < |rs| - 1 && InText(rs[j], s) && InText(rs[j + 1], s)
    && 0 <= rs[j + 1].start - rs[j].end <= maxGap
    && TryMerge(rs[j], rs[j + 1], s) == Wrappers.Some(m)
  }

  lemma MergeOfShift(rs: seq<Result>, s: string, maxGap: int, n: nat, j: int, m: Result)
    requires n <= |rs| && MergeOf(rs[n..], s, maxGap, j, m)
    ensures MergeOf(rs, s, maxGap, j + n, m)
  {
    assert rs[n..][j] == rs[j + n] && rs[n..][j + 1] == rs[j + 1 + n];
  }

  lemma HeadFrom(rs: seq<Result>, s: string, maxGap: int)
    requires AllIn(rs, s) && rs != []
    ensures Head(rs, s, maxGap) in rs || MergeOf(rs, s, maxGap, 0, Head(rs, s, maxGap))
  {
    if MergesHead(rs, s, maxGap) {
      assert rs[0] in rs && rs[1] in rs;
    }
  }

  /** In ordered input the first merged result runs from the first start to the end of the last result it takes up. */
  lemma HeadSpan(rs: seq<Result>, s: string, maxGap: int)
    requires AllIn(rs, s) && rs != [] && Ordered(rs)
    ensures var h := Head(rs, s, maxGap);
      h.start == rs[0].start && h.end == rs[Step(rs, s, maxGap) - 1].end && h.start < h.end
  {
    assert rs[0] in rs;
    if MergesHead(rs, s, maxGap) {
      assert rs[1] in rs;
      assert rs[0].end <= rs[1].start;
      TryMergeSpan(rs[0], rs[1], s);
    }
  }

  lemma OrderedTail(rs: seq<Result>, n: nat)
    requires Ordered(rs) && n <= |rs|
    ensures Ordered(rs[n..])
  {
    var tail := rs[n..];
    forall x, y | 0 <= x < y < |tail| ensures tail[x].end <= tail[y].start {
      assert tail[x] == rs[x + n] && tail[y] == rs[y + n];
    }
  }

  lemma OrderedCons(h: Result, rest: seq<Result>)
    requires Ordered(rest) && forall x :: 0 <= x < |rest| ==> h.end <= rest[x].start
    ensures Ordered([h] + rest)
  {
    var f := [h] + rest;
    forall x, y | 0 <= x < y < |f| ensures f[x].end <= f[y].start {
      assert f[y] == rest[y - 1];
      if x > 0 {
        assert f[x] == rest[x - 1];
      }
    }
  }

  /**
   * Every merged result is an input result, or the merge of two neighbours
   * a date and a time apart by 0 to maxGap; there are at most as many, and
   * none only when there were none.
   */
  lemma {:induction false} MergedFrom(rs: seq<Result>, s: string, maxGap: int)
    requires AllIn(rs, s)
    ensures |Merged(rs, s, maxGap)| <= |rs| && (Merged(rs, s, maxGap) == [] <==> rs == [])
    ensures forall m :: m in Merged(rs, s, maxGap) ==> m in rs || exists j :: MergeOf(rs, s, maxGap, j, m)
    decreases |rs|
  {
    if rs != [] {
      var n := Step(rs, s, maxGap);
      var tail := rs[n..];
      AllInTail(rs, s, n);
      MergedFrom(tail, s, maxGap);
      HeadFrom(rs, s, maxGap);
      var h := Head(rs, s, maxGap);
      assert Merged(rs, s, maxGap) == [h] + Merged(tail, s, maxGap);
      forall m | m in Merged(rs, s, maxGap) ensures m in rs || exists j :: MergeOf(rs, s, maxGap, j, m) {
        if m != h {
          assert m in Merged(tail, s, maxGap);
          if m in tail {
            assert forall r :: r in tail ==> r in rs;
          } else {
            var j :| MergeOf(tail, s, maxGap, j, m);
            MergeOfShift(rs, s, maxGap, n, j, m);
          }
        }
      }
    }
  }

  /** Without a date there is nothing to merge: the results come back unchanged. */
  lemma {:induction false} MergedNoDate(rs: seq<Result>, s: string, maxGap: int)
    requires AllIn(rs, s)
    requires forall r :: r in rs ==> r.rtype != TypeDate
    ensures Merged(rs, s, maxGap) == rs
    decreases |rs|
  {
    if rs != [] {
      assert rs[0] in rs;
      if |rs| >= 2 {
        assert rs[1] in rs;
        TryMergeWhen(rs[0], rs[1], s);
      }
      AllInTail(rs, s, 1);
      assert forall r :: r in rs[1..] ==> r in rs;
      MergedNoDate(rs[1..], s, maxGap);
    }
  }

  /**
   * Merging keeps results in start order and apart: the first result
   * starts where the first input starts, and none starts earlier.
   */
  lemma {:induction false} MergedOrdered(rs: seq<Result>, s: string, maxGap: int)
    requires AllIn(rs, s) && Ordered(rs)
    ensures var m := Merged(rs, s, maxGap);
      && Ordered(m)
      && (rs != [] ==> m != [] && m[0].start == rs[0].start)
      && (rs != [] ==> forall x :: 0 <= x < |m| ==> rs[0].start <= m[x].start)
    decreases |rs|
  {
    if rs != [] {
      var n := Step(rs, s, maxGap);
      var tail := rs[n..];
      AllInTail(rs, s, n);
      OrderedTail(rs, n);
      MergedOrdered(tail, s, maxGap);
      var h := Head(rs, s, maxGap);
      var rest := Merged(tail, s, maxGap);
      assert Merged(rs, s, maxGap) == [h] + rest;
      HeadSpan(rs, s, maxGap);
      forall x | 0 <= x < |rest| ensures h.end <= rest[x].start {
        assert tail != [] && tail[0] == rs[n];
        assert rs[n - 1].end <= rs[n].start;
      }
      OrderedCons(h, rest);
    }
  }

  /** Merged results are slices of the input, as the results merged were. */
  lemma MergedSlices(rs: seq<Result>, s: string, maxGap: int)
    requires AllIn(rs, s)
    requires forall r :: r in rs ==> SliceOf(r, s)
    ensures forall m :: m in Merged(rs, s, maxGap) ==> SliceOf(m, s)
  {
    MergedFrom(rs, s, maxGap);
    forall m | m in Merged(rs, s, maxGap) ensures SliceOf(m, s) {
      if m !in rs {
        var j :| MergeOf(rs, s, maxGap, j, m);
        TryMergeSpan(rs[j], rs[j + 1], s);
      }
    }
  }

  /**
   * mergeAdjacent: walk the results, replacing a date and a time that lie
   * 0 to maxMergeGap apart by their merge, and keeping every other result.
   */
  method MergeAdjacent(results: seq<Result>, s: string, maxGap: int) returns (out: seq<Result>)
    requires AllIn(results, s)
    ensures out == Merged(results, s, maxGap)
  {
    if |results| < 2 {
      if results != [] {
        MergedUnfold(results, s, maxGap, 0);
        assert results[1..] == [];
      }
      return results;
    }
    out := [];
    var i := 0;
    assert results[0..] == results;
    while i < |results|
      invariant 0 <= i <= |results|
      invariant AllIn(results[i..], s)
      invariant out + Merged(results[i..], s, maxGap) == Merged(results, s, maxGap)
    {
      var r, n := MergeStep(results, s, maxGap, i);
      ResultsAssoc(out, [r], Merged(results[i + n..], s, maxGap));
      out := out + [r];
      i := i + n;
    }
    assert results[i..] == [];
  }

  lemma ResultsAssoc(a: seq<Result>, b: seq<Result>, c: seq<Result>)
    ensures (a + b) + c == a + (b + c)
  {
  }

  /** One pass of mergeAdjacent's loop at i: the merge of results i and i + 1, or result i. */
  method MergeStep(results: seq<Result>, s: string, maxGap: int, i: nat) returns (r: Result, n: nat)
    requires AllIn(results, s) && i < |results|
    ensures 1 <= n <= 2 && i + n <= |results| && AllIn(results[i + n..], s)
    ensures AllIn(results[i..], s) && Merged(results[i..], s, maxGap) == [r] + Merged(results[i + n..], s, maxGap)
  {
    MergedUnfold(results, s, maxGap, i);
    if i + 1 < |results| {
      var a, b := results[i], results[i + 1];
      var gap := b.start - a.end;
      if gap >= 0 && gap <= maxGap {
        var merged := TryMerge(a, b, s);
        if merged.Some? {
          return merged.value, 2;
        }
      }
    }
    return results[i], 1;
  }
}
