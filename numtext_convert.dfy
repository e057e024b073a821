/**
 * Number to Azerbaijani text: cardinals for |n| <= 10^18, ordinals with a
 * vowel-harmony suffix, and decimal strings read as a fraction or digit by digit.
 */
module NumtextConvert {
  import opened Wrappers
  import opened NumtextWords
  import Unicode
  import GoInt

  function Abs(n: int): nat { if n < 0 then -n else n }

  /** The words for hundreds digit h, tens digit t and ones digit o, not all zero. */
  function DigitWords(h: int, t: int, o: int): (ws: seq<string>)
    requires 0 <= h <= 9 && 0 <= t <= 9 && 0 <= o <= 9
  {
    (if h == 1 then [WordHundred] else if h > 1 then [Ones[h], WordHundred] else [])
    + (if t > 0 then [Tens[t]] else [])
    + (if o > 0 then [Ones[o]] else [])
  }

  /** The words writeGroup writes for a group value in 1..999. */
  function GroupWords(n: int): (ws: seq<string>)
    requires 0 < n <= 999
    ensures 1 <= |ws| <= 4
  {
    DigitWords(n / 100, n % 100 / 10, n % 10)
  }

  /** The text writeGroup appends: its words separated by single spaces. */
  function GroupText(n: int): string
    requires 0 < n <= 999
  {
    Unicode.Join(GroupWords(n), " ")
  }

  /** One hundred is the bare word "yüz", and two hundred is "iki yüz". */
  lemma GroupHundreds()
    ensures GroupText(100) == "yüz"
    ensures GroupText(200) == "iki yüz"
  {
    assert GroupWords(100) == [WordHundred];
    assert GroupWords(200) == [Ones[2], WordHundred];
  }

  /** Each magnitude is a thousand times the next one. */
  lemma MagnitudeChain(k: nat)
    requires k < |Magnitudes|
    ensures Magnitudes[k].value >= 1000 && Magnitudes[k].value % 1000 == 0
    ensures k > 0 ==> Magnitudes[k - 1].value == 1000 * Magnitudes[k].value
    ensures k == 0 ==> Magnitudes[k].value == MaxAbs
    ensures k == |Magnitudes| - 1 ==> Magnitudes[k].value == 1000
  {
  }

  /** count times the value of magnitude k, with that value written out. */
  function Scale(count: int, k: nat): int
    requires k < |Magnitudes|
  {
    match k
    case 0 => count * 1_000_000_000_000_000_000
    case 1 => count * 1_000_000_000_000_000
    case 2 => count * 1_000_000_000_000
    case 3 => count * 1_000_000_000
    case 4 => count * 1_000_000
    case _ => count * 1_000
  }

  lemma ScaleValue(count: int, k: nat)
    requires k < |Magnitudes|
    ensures Scale(count, k) == count * Magnitudes[k].value
  {
  }

  /** The count for magnitude k and the remainder below it, dividing by the literal magnitude value. */
  function Split(n: int, k: nat): (p: (int, int))
    requires k < |Magnitudes| && 0 <= n <= MaxAbs
    requires k > 0 ==> n < Magnitudes[k - 1].value
    ensures 0 <= p.0 <= 999 && (k == 0 ==> p.0 <= 1)
    ensures 0 <= p.1 < Magnitudes[k].value
    ensures n == 0 ==> p == (0, 0)
    ensures n > 0 ==> p.0 > 0 || p.1 > 0
    ensures p.0 == 0 ==> p.1 == n
    ensures n < Magnitudes[k].value ==> p == (0, n)
    ensures n == Scale(p.0, k) + p.1
  {
    match k
    case 0 => (n / 1_000_000_000_000_000_000, n % 1_000_000_000_000_000_000)
    case 1 => (n / 1_000_000_000_000_000, n % 1_000_000_000_000_000)
    case 2 => (n / 1_000_000_000_000, n % 1_000_000_000_000)
    case 3 => (n / 1_000_000_000, n % 1_000_000_000)
    case 4 => (n / 1_000_000, n % 1_000_000)
    case _ => (n / 1_000, n % 1_000)
  }

  /** Split is the quotient and remainder convert computes. */
  lemma SplitIsDivMod(n: int, k: nat)
    requires k < |Magnitudes| && 0 <= n <= MaxAbs
    requires k > 0 ==> n < Magnitudes[k - 1].value
    ensures Split(n, k) == (n / Magnitudes[k].value, n % Magnitudes[k].value)
  {
  }

  /** The words written for one magnitude with the given count: "min" alone for one thousand. */
  function MagnitudeWords(count: int, mag: Magnitude): (ws: seq<string>)
    requires 0 <= count <= 999
    ensures ws == [] <==> count == 0
  {
    if count == 0 then []
    else if mag.value == 1000 && count == 1 then [mag.word]
    else GroupWords(count) + [mag.word]
  }

  /** The words for 0 <= n <= 10^18 using the magnitudes from index k on, then the last group. */
  function ConvertWords(n: int, k: nat): seq<string>
    requires k <= |Magnitudes| && 0 <= n <= MaxAbs
    requires k > 0 ==> n < Magnitudes[k - 1].value
    decreases |Magnitudes| - k
  {
    if k == |Magnitudes| then
      (if n > 0 then (MagnitudeChain(k - 1); GroupWords(n)) else [])
    else
      var p := Split(n, k);
      MagnitudeWords(p.0, Magnitudes[k]) + ConvertWords(p.1, k + 1)
  }

  /** One level of ConvertWords: the block for magnitude k, then the words for the remainder. */
  lemma ConvertUnfold(n: int, k: nat)
    requires k < |Magnitudes| && 0 <= n <= MaxAbs && (k > 0 ==> n < Magnitudes[k - 1].value)
    ensures ConvertWords(n, k) == MagnitudeWords(Split(n, k).0, Magnitudes[k]) + ConvertWords(Split(n, k).1, k + 1)
  {
  }

  /** The words of the cardinal text of a non-zero value within range. */
  function CardinalWords(n: int): seq<string>
    requires n != 0 && -MaxAbs <= n <= MaxAbs
  {
    (if n < 0 then [WordNegative] else []) + ConvertWords(Abs(n), 0)
  }

  /** The cardinal text convert produces. */
  function CardinalText(n: int): string {
    if n > MaxAbs || n < -MaxAbs then ""
    else if n == 0 then WordZero
    else Unicode.Join(CardinalWords(n), " ")
  }

  /** A word that is non-empty, free of white space and already lower-case. */
  predicate Token(w: string) { w != [] && Unicode.NoSpace(w) && Unicode.LowerFixed(w) }

  predicate Tokens(ws: seq<string>) { forall i :: 0 <= i < |ws| ==> Token(ws[i]) }

  lemma TokensAppend(ws: seq<string>, vs: seq<string>)
    requires Tokens(ws) && Tokens(vs)
    ensures Tokens(ws + vs)
  {
    forall i | 0 <= i < |ws + vs| ensures Token((ws + vs)[i]) {
      if i < |ws| { assert (ws + vs)[i] == ws[i]; } else { assert (ws + vs)[i] == vs[i - |ws|]; }
    }
  }

  /** The table words are tokens. */
  lemma OnesTokens()
    ensures forall d :: 0 <= d < 10 ==> Token(Ones[d])
  {
    OnesLower();
    OnesSpaceFree();
  }

  lemma OnesSpaceFree()
    ensures forall d :: 0 <= d < 10 ==> Ones[d] != [] && Unicode.NoSpace(Ones[d])
  {
  }

  lemma OnesLower()
    ensures forall d :: 0 <= d < 10 ==> Unicode.LowerFixed(Ones[d])
  {
  }

  lemma TensTokens()
    ensures forall t :: 1 <= t < 10 ==> Token(Tens[t])
  {
    TensLower();
    TensSpaceFree();
  }

  lemma TensSpaceFree()
    ensures forall t :: 1 <= t < 10 ==> Tens[t] != [] && Unicode.NoSpace(Tens[t])
  {
  }

  lemma TensLower()
    ensures forall t :: 1 <= t < 10 ==> Unicode.LowerFixed(Tens[t])
  {
  }

  lemma MagnitudeWordTokens()
    ensures forall k :: 0 <= k < |Magnitudes| ==> Token(Magnitudes[k].word)
  {
    MagnitudeWordsLower();
  }

  lemma MagnitudeWordsLower()
    ensures forall k :: 0 <= k < |Magnitudes| ==> Unicode.LowerFixed(Magnitudes[k].word)
  {
  }

  lemma SignToken()
    ensures Tokens([WordNegative])
  {
  }

  lemma GroupTokens(n: int)
    requires 0 < n <= 999
    ensures Tokens(GroupWords(n))
  {
    OnesTokens();
    TensTokens();
  }

  lemma MagnitudeTokens(count: int, k: nat)
    requires 0 <= count <= 999 && k < |Magnitudes|
    ensures Tokens(MagnitudeWords(count, Magnitudes[k]))
  {
    MagnitudeWordTokens();
    if count > 0 && !(Magnitudes[k].value == 1000 && count == 1) {
      GroupTokens(count);
      TokensAppend(GroupWords(count), [Magnitudes[k].word]);
    }
  }

  lemma {:induction false} ConvertTokens(n: int, k: nat)
    requires k <= |Magnitudes| && 0 <= n <= MaxAbs
    requires k > 0 ==> n < Magnitudes[k - 1].value
    ensures Tokens(ConvertWords(n, k))
    decreases |Magnitudes| - k
  {
    if k == |Magnitudes| {
      if n > 0 { MagnitudeChain(k - 1); GroupTokens(n); }
    } else {
      var c, rest := Split(n, k).0, Split(n, k).1;
      ConvertTokens(rest, k + 1);
      MagnitudeTokens(c, k);
      TokensAppend(MagnitudeWords(c, Magnitudes[k]), ConvertWords(rest, k + 1));
    }
  }

  /** After the last magnitude only the final group is left. */
  lemma ConvertLast(n: int)
    requires 0 <= n < 1000
    ensures ConvertWords(n, |Magnitudes|) == if n > 0 then GroupWords(n) else []
    ensures n > 0 <==> ConvertWords(n, |Magnitudes|) != []
  {
  }

  /** convert writes no words for zero and at least one for any positive value. */
  lemma {:induction false} ConvertNonEmpty(n: int, k: nat)
    requires k <= |Magnitudes| && 0 <= n <= MaxAbs
    requires k > 0 ==> n < Magnitudes[k - 1].value
    ensures n > 0 <==> ConvertWords(n, k) != []
    decreases |Magnitudes| - k
  {
    if k == |Magnitudes| {
      MagnitudeChain(k - 1);
      ConvertLast(n);
    } else {
      ConvertNonEmpty(Split(n, k).1, k + 1);
    }
  }

  /** writeGroup: appends the words of a group value 1..999 to the builder. */
  method WriteGroup(b: string, n: int) returns (b': string)
    requires 0 < n <= 999
    ensures b' == b + GroupText(n)
  {
    var h := n / 100;
    var r := n % 100;
    var t := r / 10;
    var o := r % 10;
    assert o == n % 10;
    var hs := "";
    if h == 1 {
      hs := WordHundred;
    } else if h > 1 {
      hs := Ones[h] + " " + WordHundred;
    }
    var ts := "";
    if t > 0 {
      if h > 0 {
        ts := " ";
      }
      ts := ts + Tens[t];
    }
    var os := "";
    if o > 0 {
      if h > 0 || t > 0 {
        os := " ";
      }
      os := os + Ones[o];
    }
    DigitTextShape(h, t, o);
    b' := b + (hs + ts + os);
  }

  /** Joining three optional parts puts a space only between parts that are present. */
  lemma JoinParts(H: seq<string>, T: seq<string>, O: seq<string>)
    requires |T| <= 1 && |O| <= 1
    ensures Unicode.Join(H + T + O, " ")
      == Unicode.Join(H, " ")
         + (if T != [] then (if H != [] then " " else "") + T[0] else "")
         + (if O != [] then (if H != [] || T != [] then " " else "") + O[0] else "")
  {
    if H != [] && T != [] { Unicode.JoinAppend(H, T, " "); }
    if H + T != [] && O != [] { Unicode.JoinAppend(H + T, O, " "); }
    if H == [] { assert H + T + O == T + O; }
    if T == [] { assert H + T == H; }
    if O == [] { assert H + T + O == H + T; }
  }

  /** The group text spelled out piece by piece, as writeGroup emits it. */
  lemma DigitTextShape(h: int, t: int, o: int)
    requires 0 <= h <= 9 && 0 <= t <= 9 && 0 <= o <= 9
    ensures var hs := if h == 1 then WordHundred else if h > 1 then Ones[h] + " " + WordHundred else "";
      var ts := if t > 0 then (if h > 0 then " " else "") + Tens[t] else "";
      var os := if o > 0 then (if h > 0 || t > 0 then " " else "") + Ones[o] else "";
      Unicode.Join(DigitWords(h, t, o), " ") == hs + ts + os
  {
    var H := if h == 1 then [WordHundred] else if h > 1 then [Ones[h], WordHundred] else [];
    var T := if t > 0 then [Tens[t]] else [];
    var O := if o > 0 then [Ones[o]] else [];
    JoinParts(H, T, O);
  }

  /** The text of one magnitude block, as convert writes it. */
  lemma BlockText(count: int, k: nat)
    requires 0 < count <= 999 && k < |Magnitudes|
    ensures var mag := Magnitudes[k];
      Unicode.Join(MagnitudeWords(count, mag), " ")
        == if mag.value == 1000 && count == 1 then mag.word else GroupText(count) + " " + mag.word
  {
    var mag := Magnitudes[k];
    if !(mag.value == 1000 && count == 1) {
      Unicode.JoinAppend(GroupWords(count), [mag.word], " ");
    }
  }

  /** The block convert writes for a non-zero count: "min" alone, or the group, a space and the magnitude word. */
  method WriteBlock(b: string, count: int, k: nat) returns (b': string)
    requires 0 < count <= 999 && k < |Magnitudes|
    ensures b' == b + Unicode.Join(MagnitudeWords(count, Magnitudes[k]), " ")
  {
    var mag := Magnitudes[k];
    BlockText(count, k);
    if mag.value == 1_000 && count == 1 {
      b' := b + mag.word;
    } else {
      var g := WriteGroup(b, count);
      b' := g + " " + mag.word;
      StringAssoc(b, GroupText(count), " " + mag.word);
    }
  }

  lemma StringAssoc(a: string, b: string, c: string)
    ensures (a + b) + c == a + (b + c)
  {
  }

  /** The tail of convert: a separating space and the last group, when it is not zero. */
  method WriteLast(b: string, m: int) returns (b': string)
    requires 0 <= m < 1000
    ensures b' == if m > 0 then (if |b| > 0 then b + " " else b) + GroupText(m) else b
  {
    b' := b;
    if m > 0 {
      if |b'| > 0 {
        b' := b' + " ";
      }
      b' := WriteGroup(b', m);
    }
  }

  /** What convert's builder holds after the magnitudes before index i: the words done so far,
      which with the words still to come for the remainder m make up the whole text. */
  ghost predicate BuilderInv(b: string, done: seq<string>, m: int, i: nat, all: seq<string>) {
    i <= |Magnitudes| && 0 <= m <= MaxAbs && (i > 0 ==> m < Magnitudes[i - 1].value)
    && done + ConvertWords(m, i) == all && Tokens(done) && b == Unicode.Join(done, " ")
  }

  lemma BuilderStart(n: int, b: string, done: seq<string>)
    requires n != 0 && -MaxAbs <= n <= MaxAbs
    requires done == (if n < 0 then [WordNegative] else [])
    requires b == Unicode.Join(done, " ")
    ensures BuilderInv(b, done, Abs(n), 0, CardinalWords(n))
  {
    if n < 0 {
      SignToken();
      NegativeWords(-n);
    } else {
      PositiveWords(n);
      assert done + ConvertWords(n, 0) == ConvertWords(n, 0);
    }
  }

  lemma BuilderStep(b0: string, b: string, done: seq<string>, m: int, i: nat, all: seq<string>)
    requires BuilderInv(b0, done, m, i, all) && i < |Magnitudes|
    requires Split(m, i).0 > 0
    requires b == (if |b0| > 0 then b0 + " " else b0) + Unicode.Join(MagnitudeWords(Split(m, i).0, Magnitudes[i]), " ")
    ensures BuilderInv(b, done + MagnitudeWords(Split(m, i).0, Magnitudes[i]), Split(m, i).1, i + 1, all)
  {
    var block := MagnitudeWords(Split(m, i).0, Magnitudes[i]);
    MagnitudeTokens(Split(m, i).0, i);
    JoinBuilder(done, block, b0, b);
    TokensAppend(done, block);
    AppendAssoc(done, block, ConvertWords(Split(m, i).1, i + 1));
  }

  lemma BuilderSkip(b: string, done: seq<string>, m: int, i: nat, all: seq<string>)
    requires BuilderInv(b, done, m, i, all) && i < |Magnitudes|
    requires Split(m, i).0 == 0
    ensures BuilderInv(b, done, m, i + 1, all)
  {
    SkipOne(m, i);
  }

  lemma SkipOne(m: int, i: nat)
    requires i < |Magnitudes| && 0 <= m <= MaxAbs && (i > 0 ==> m < Magnitudes[i - 1].value)
    requires Split(m, i).0 == 0
    ensures m < Magnitudes[i].value && ConvertWords(m, i) == ConvertWords(m, i + 1)
  {
    var p := Split(m, i);
    assert p.1 == m;
    assert MagnitudeWords(p.0, Magnitudes[i]) == [];
  }

  lemma BuilderEnd(b0: string, b: string, done: seq<string>, m: int, all: seq<string>)
    requires BuilderInv(b0, done, m, |Magnitudes|, all)
    requires b == if m > 0 then (if |b0| > 0 then b0 + " " else b0) + GroupText(m) else b0
    ensures b == Unicode.Join(all, " ")
  {
    MagnitudeChain(|Magnitudes| - 1);
    ConvertLast(m);
    if m > 0 {
      GroupTokens(m);
      JoinBuilder(done, GroupWords(m), b0, b);
    } else {
      assert done == all;
    }
  }

  /** convert, with its loop over the magnitudes appending to a builder. */
  /** One pass of convert's loop: writes the block for magnitude i when its count is non-zero. */
  method ConvertMagnitude(b: string, m: int, i: nat, ghost done: seq<string>, ghost all: seq<string>)
    returns (b': string, m': int, ghost done': seq<string>)
    requires BuilderInv(b, done, m, i, all) && i < |Magnitudes|
    ensures BuilderInv(b', done', m', i + 1, all)
  {
    var mag := Magnitudes[i];
    SplitIsDivMod(m, i);
    var count := m / mag.value;
    b', m', done' := b, m, done;
    if count > 0 {
      if |b| > 0 {
        b' := b + " ";
      }
      b' := WriteBlock(b', count, i);
      BuilderStep(b, b', done, m, i, all);
      done' := done + MagnitudeWords(count, mag);
      m' := m % mag.value;
    } else {
      BuilderSkip(b, done, m, i, all);
    }
  }

  method Convert(n: int) returns (r: string)
    requires GoInt.InInt64(n)
    ensures r == CardinalText(n)
  {
    if n > MaxAbs || n < -MaxAbs {
      return "";
    }
    if n == 0 {
      return WordZero;
    }
    var negative := n < 0;
    var m := if negative then -n else n;
    var b := "";
    ghost var done: seq<string> := [];
    if negative {
      b := WordNegative;
      done := [WordNegative];
    }
    BuilderStart(n, b, done);
    ghost var all := CardinalWords(n);
    var i := 0;
    while i < |Magnitudes|
      invariant BuilderInv(b, done, m, i, all)
    {
      b, m, done := ConvertMagnitude(b, m, i, done, all);
      i := i + 1;
    }
    ghost var b0 := b;
    MagnitudeChain(|Magnitudes| - 1);
    b := WriteLast(b, m);
    BuilderEnd(b0, b, done, m, all);
    r := b;
  }

  lemma AppendAssoc(a: seq<string>, b: seq<string>, c: seq<string>)
    ensures a + (b + c) == (a + b) + c
  {
  }

  /** The builder's "space if not empty, then the block" is the join of the extended word list. */
  lemma JoinBuilder(done: seq<string>, block: seq<string>, b0: string, b: string)
    requires Tokens(done) && block != []
    requires b0 == Unicode.Join(done, " ")
    requires b == (if |b0| > 0 then b0 + " " else b0) + Unicode.Join(block, " ")
    ensures b == Unicode.Join(done + block, " ")
  {
    Unicode.JoinEmpty(done, " ");
    if done != [] {
      Unicode.JoinAppend(done, block, " ");
    } else {
      assert done + block == block;
    }
  }

  lemma CardinalWordsTokens(n: int)
    requires n != 0 && -MaxAbs <= n <= MaxAbs
    ensures Tokens(CardinalWords(n)) && CardinalWords(n) != []
  {
    if n < 0 {
      NegativeWords(-n);
    } else {
      PositiveWords(n);
    }
  }

  lemma NegativeWords(m: int)
    requires 0 < m <= MaxAbs
    ensures CardinalWords(-m) == [WordNegative] + ConvertWords(m, 0)
    ensures Tokens(CardinalWords(-m)) && ConvertWords(m, 0) != []
  {
    NegativeSplit(m);
    NegativeTokens(m);
    ConvertNonEmpty(m, 0);
  }

  lemma NegativeSplit(m: int)
    requires 0 < m <= MaxAbs
    ensures CardinalWords(-m) == [WordNegative] + ConvertWords(m, 0)
  {
    assert Abs(-m) == m;
  }

  lemma NegativeTokens(m: int)
    requires 0 < m <= MaxAbs
    ensures Tokens([WordNegative] + ConvertWords(m, 0))
  {
    ConvertTokens(m, 0);
    SignToken();
    TokensAppend([WordNegative], ConvertWords(m, 0));
  }

  lemma PositiveWords(m: int)
    requires 0 < m <= MaxAbs
    ensures CardinalWords(m) == ConvertWords(m, 0)
    ensures Tokens(CardinalWords(m)) && CardinalWords(m) != []
  {
    ConvertTokens(m, 0);
    ConvertNonEmpty(m, 0);
    assert CardinalWords(m) == ConvertWords(m, 0);
  }

  /** convert returns "" exactly for values beyond 10^18 in magnitude. */
  lemma CardinalEmpty(n: int)
    ensures CardinalText(n) == "" <==> n > MaxAbs || n < -MaxAbs
  {
    if n != 0 && -MaxAbs <= n <= MaxAbs {
      CardinalWordsTokens(n);
      Unicode.JoinEmpty(CardinalWords(n), " ");
    }
  }

  /** A negative value reads as "mənfi", a space, then the text of its magnitude. */
  lemma CardinalNegative(n: int)
    requires 0 < n <= MaxAbs
    ensures CardinalText(-n) == WordNegative + " " + CardinalText(n)
  {
    NegativeWords(n);
    PositiveWords(n);
    JoinCons(WordNegative, ConvertWords(n, 0));
  }

  lemma JoinCons(w: string, ws: seq<string>)
    requires ws != []
    ensures Unicode.Join([w] + ws, " ") == w + " " + Unicode.Join(ws, " ")
  {
    assert ([w] + ws)[1..] == ws;
  }

  /** A magnitude larger than the value contributes no words. */
  lemma {:induction false} SkipMagnitudes(n: int, k: nat, j: nat)
    requires 0 < j <= |Magnitudes| && k <= j && 0 <= n < Magnitudes[j - 1].value
    ensures ConvertWords(n, k) == ConvertWords(n, j)
    decreases j - k
  {
    if k < j {
      assert n < Magnitudes[k].value by {
        if k < j - 1 { MagnitudeOrder(k, j - 1); }
      }
      assert Split(n, k) == (0, n);
      assert ConvertWords(n, k) == ConvertWords(n, k + 1);
      SkipMagnitudes(n, k + 1, j);
    }
  }

  /** Magnitudes decrease along the table. */
  lemma MagnitudeOrder(k: nat, j: nat)
    requires k <= j < |Magnitudes|
    ensures Magnitudes[j].value <= Magnitudes[k].value
  {
  }

  /** One thousand is "min" without "bir". */
  lemma CardinalThousand()
    ensures CardinalText(1_000) == "min"
  {
    SkipMagnitudes(1_000, 0, 5);
    assert ConvertWords(0, 6) == [];
    assert ConvertWords(1_000, 5) == ["min"];
    assert CardinalWords(1_000) == ["min"];
  }

  /** Two thousand keeps its count: "iki min". */
  lemma CardinalTwoThousand()
    ensures CardinalText(2_000) == "iki min"
  {
    SkipMagnitudes(2_000, 0, 5);
    assert ConvertWords(0, 6) == [];
    assert GroupWords(2) == ["iki"];
    assert ConvertWords(2_000, 5) == ["iki", "min"];
    assert CardinalWords(2_000) == ["iki", "min"];
  }

  /** One million keeps "bir": "bir milyon". */
  lemma CardinalMillion()
    ensures CardinalText(1_000_000) == "bir milyon"
  {
    MillionWords();
    assert CardinalWords(1_000_000) == ["bir", "milyon"];
  }

  lemma MillionWords()
    ensures ConvertWords(1_000_000, 0) == ["bir", "milyon"]
  {
    SkipMagnitudes(1_000_000, 0, 4);
    MillionBlock();
    ZeroTail();
    assert GroupWords(1) == ["bir"];
    assert MagnitudeWords(1, Magnitudes[4]) == ["bir", "milyon"];
  }

  /** One million is one block of the million magnitude and nothing below it. */
  lemma MillionBlock()
    ensures ConvertWords(1_000_000, 4) == MagnitudeWords(1, Magnitudes[4]) + ConvertWords(0, 5)
  {
    ConvertUnfold(1_000_000, 4);
    assert Split(1_000_000, 4) == (1, 0);
  }

  /** Zero below the millions writes no words. */
  lemma ZeroTail()
    ensures ConvertWords(0, 5) == []
  {
    assert ConvertWords(0, 6) == [];
  }

  /** Below one thousand the cardinal is the group text alone. */
  lemma CardinalSmall(n: int)
    requires 0 < n < 1000
    ensures CardinalText(n) == GroupText(n)
  {
    SkipMagnitudes(n, 0, |Magnitudes|);
    PositiveWords(n);
    ConvertLast(n);
  }
}
