/**
 * The values the date/time extractor reports: the result type, the bitmask
 * of components that came from the input rather than the reference time,
 * and the result record with its [start, end) offsets into the input.
 */
module DatetimeTypes {
  import GoInt
  import GoEnum
  import Calendar

  /** Go's Type is an int; the four named values are 0 to 3. */
  const TypeDate: int := 0
  const TypeTime: int := 1
  const TypeDateTime: int := 2
  const TypeDuration: int := 3

  const TypeNames: seq<string> := ["Date", "Time", "DateTime", "Duration"]

  /** Type.String: the name of a known type, else Type(n). */
  function TypeString(t: int): string {
    GoEnum.Name(TypeNames, "Type", t)
  }

  lemma TypeNamesOk()
    ensures GoEnum.Distinct(TypeNames) && GoEnum.NoFallback(TypeNames, "Type")
  {
    forall a, b | 0 <= a < b < |TypeNames| ensures TypeNames[a] != TypeNames[b] {
      if a == 2 && b == 3 {
        assert TypeNames[a][1] != TypeNames[b][1];
      } else if a == 0 && b >= 2 {
        assert |TypeNames[a]| != |TypeNames[b]|;
      } else {
        assert TypeNames[a][0] != TypeNames[b][0];
      }
    }
    forall k | 0 <= k < |TypeNames| ensures !("Type(" <= TypeNames[k]) {
      assert TypeNames[k][0] != 'T' || TypeNames[k][1] != 'y';
    }
  }

  /** A known type prints its name, any other value Type(n); different values print differently. */
  lemma TypeStringInjective(a: int, b: int)
    requires a != b && GoInt.InInt64(a) && GoInt.InInt64(b)
    ensures TypeString(a) != TypeString(b)
  {
    TypeNamesOk();
    GoEnum.NameInjective(TypeNames, "Type", a, b);
  }

  /** Components is a uint8 bitmask. */
  type Components = bv8

  const HasYear: Components := 1
  const HasMonth: Components := 2
  const HasDay: Components := 4
  const HasHour: Components := 8
  const HasMinute: Components := 16
  const HasSecond: Components := 32

  /** The six flags and their letters, in the order Components.String lists them. */
  const Flags: seq<Components> := [HasYear, HasMonth, HasDay, HasHour, HasMinute, HasSecond]
  const Letters: string := "YMDhms"

  /** Whether flag k (0 to 5) is set in c. */
  predicate Has(c: Components, k: nat)
    requires k < 6
  {
    c & Flags[k] != 0
  }

  function Letter(isSet: bool, l: char): (r: string)
    ensures |r| == if isSet then 1 else 0
  {
    if isSet then [l] else []
  }

  /** The letters of the set flags among the six, in YMDhms order. */
  function Six(b0: bool, b1: bool, b2: bool, b3: bool, b4: bool, b5: bool): string {
    Letter(b0, 'Y') + (Letter(b1, 'M') + (Letter(b2, 'D') + (Letter(b3, 'h') + (Letter(b4, 'm') + Letter(b5, 's')))))
  }

  /** Components.String: the letters of the set flags in YMDhms order, or "none". */
  function ComponentsString(c: Components): string {
    var parts := Six(c & HasYear != 0, c & HasMonth != 0, c & HasDay != 0,
                     c & HasHour != 0, c & HasMinute != 0, c & HasSecond != 0);
    if parts == [] then "none" else parts
  }

  /** The set flags of c, in YMDhms order. */
  function Bits(c: Components): (bits: seq<bool>)
    ensures |bits| == 6
  {
    [Has(c, 0), Has(c, 1), Has(c, 2), Has(c, 3), Has(c, 4), Has(c, 5)]
  }

  /** The letters Letters[k..] whose bits are set, in order. */
  function Listed(bits: seq<bool>, k: nat): string
    requires |bits| == 6 && k <= 6
    decreases 6 - k
  {
    if k == 6 then [] else Letter(bits[k], Letters[k]) + Listed(bits, k + 1)
  }

  lemma ListedSix(b0: bool, b1: bool, b2: bool, b3: bool, b4: bool, b5: bool)
    ensures Listed([b0, b1, b2, b3, b4, b5], 0) == Six(b0, b1, b2, b3, b4, b5)
  {
    var bits := [b0, b1, b2, b3, b4, b5];
    var l := [Letter(b0, 'Y'), Letter(b1, 'M'), Letter(b2, 'D'), Letter(b3, 'h'), Letter(b4, 'm'), Letter(b5, 's')];
    assert Letters == ['Y', 'M', 'D', 'h', 'm', 's'];
    assert Listed(bits, 6) == [];
    assert Listed(bits, 5) == l[5];
    assert Listed(bits, 4) == l[4] + l[5];
    assert Listed(bits, 3) == l[3] + (l[4] + l[5]);
    assert Listed(bits, 2) == l[2] + (l[3] + (l[4] + l[5]));
    assert Listed(bits, 1) == l[1] + (l[2] + (l[3] + (l[4] + l[5])));
    assert Listed(bits, 0) == l[0] + (l[1] + (l[2] + (l[3] + (l[4] + l[5]))));
  }

  lemma SixEmpty(b0: bool, b1: bool, b2: bool, b3: bool, b4: bool, b5: bool)
    ensures Six(b0, b1, b2, b3, b4, b5) == [] <==> !(b0 || b1 || b2 || b3 || b4 || b5)
  {
    assert |Six(b0, b1, b2, b3, b4, b5)| == |Letter(b0, 'Y')| + |Letter(b1, 'M')| + |Letter(b2, 'D')|
      + |Letter(b3, 'h')| + |Letter(b4, 'm')| + |Letter(b5, 's')|;
  }

  lemma SixIn(b0: bool, b1: bool, b2: bool, b3: bool, b4: bool, b5: bool, x: char)
    ensures x in Six(b0, b1, b2, b3, b4, b5) <==>
      (b0 && x == 'Y') || (b1 && x == 'M') || (b2 && x == 'D') || (b3 && x == 'h') || (b4 && x == 'm') || (b5 && x == 's')
  {
  }

  /** The debug form's letters, read through the six flags. */
  lemma ComponentsStringSix(c: Components)
    ensures var parts := Six(Has(c, 0), Has(c, 1), Has(c, 2), Has(c, 3), Has(c, 4), Has(c, 5));
      ComponentsString(c) == if parts == [] then "none" else parts
    ensures c & 0x3F == 0 <==> !(Has(c, 0) || Has(c, 1) || Has(c, 2) || Has(c, 3) || Has(c, 4) || Has(c, 5))
  {
  }

  /**
   * The debug form lists exactly the letters of the set flags, in the fixed
   * order, and is "none" exactly when no flag is set.
   */
  lemma ComponentsStringListed(c: Components)
    ensures c & 0x3F != 0 ==> ComponentsString(c) == Listed(Bits(c), 0)
    ensures ComponentsString(c) == "none" <==> c & 0x3F == 0
  {
    var b := Bits(c);
    ComponentsStringSix(c);
    SixEmpty(b[0], b[1], b[2], b[3], b[4], b[5]);
    SixIn(b[0], b[1], b[2], b[3], b[4], b[5], 'n');
    ListedSix(b[0], b[1], b[2], b[3], b[4], b[5]);
    assert b == [b[0], b[1], b[2], b[3], b[4], b[5]];
    assert "none"[0] == 'n';
  }

  /** Each letter appears in the debug form exactly when its flag is set. */
  lemma ComponentsStringFlags(c: Components, k: nat)
    requires k < 6
    ensures Letters[k] in ComponentsString(c) <==> Has(c, k)
  {
    var b := Bits(c);
    ComponentsStringSix(c);
    SixEmpty(b[0], b[1], b[2], b[3], b[4], b[5]);
    SixLetter(b[0], b[1], b[2], b[3], b[4], b[5], k);
    LetterNotNone(k);
    assert [b[0], b[1], b[2], b[3], b[4], b[5]] == b;
  }

  /** Letter k is listed exactly when its bit is set. */
  lemma SixLetter(b0: bool, b1: bool, b2: bool, b3: bool, b4: bool, b5: bool, k: nat)
    requires k < 6
    ensures Letters[k] in Six(b0, b1, b2, b3, b4, b5) <==> [b0, b1, b2, b3, b4, b5][k]
  {
    SixIn(b0, b1, b2, b3, b4, b5, Letters[k]);
    LetterNotNone(k);
  }

  lemma LetterNotNone(k: nat)
    requires k < 6
    ensures Letters[k] !in "none"
    ensures Letters[k] == ['Y', 'M', 'D', 'h', 'm', 's'][k]
  {
    assert Letters == ['Y', 'M', 'D', 'h', 'm', 's'];
    assert forall x :: x in "none" ==> x == 'n' || x == 'o' || x == 'e';
  }

  /**
   * One extracted expression: the matched text and its offsets, the kind,
   * the resolved time, the duration (non-zero only for a Duration) and the
   * components that came from the input.
   */
  datatype Result = Result(text: string, start: int, end: int, rtype: int, time: Calendar.Moment,
                           duration: int, explicit: Components)
}
