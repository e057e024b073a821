/**
 * Named entities: the seven entity types, the entity record with its
 * [start, end) offsets into the input, and their debug strings.
 *
 * Offsets are rune indices here; the library reports byte offsets, which
 * differ only by the encoded width of the runes before them.
 */
module NerEntity {
  import GoInt
  import GoEnum

  /** Go's EntityType is an int; the seven named values are 0 to 6. */
  const FIN: int := 0
  const VOEN: int := 1
  const Phone: int := 2
  const Email: int := 3
  const IBAN: int := 4
  const LicensePlate: int := 5
  const URL: int := 6

  datatype Entity = Entity(text: string, start: int, end: int, etype: int, labeled: bool)

  /** The names of the seven entity types, in value order. */
  const TypeNames: seq<string> := ["FIN", "VOEN", "Phone", "Email", "IBAN", "LicensePlate", "URL"]

  /** EntityType.String: the name of a known type, else EntityType(n). */
  function TypeString(t: int): string {
    GoEnum.Name(TypeNames, "EntityType", t)
  }

  /** The seven names are distinct and none looks like the fallback form. */
  lemma TypeNamesOk()
    ensures GoEnum.Distinct(TypeNames) && GoEnum.NoFallback(TypeNames, "EntityType")
  {
    forall a, b | 0 <= a < b < |TypeNames| ensures TypeNames[a] != TypeNames[b] {
      assert TypeNames[a][0] != TypeNames[b][0];
    }
    forall k | 0 <= k < |TypeNames| ensures !("EntityType(" <= TypeNames[k]) {
      assert TypeNames[k][0] != 'E' || |TypeNames[k]| < 11;
    }
  }

  /** Different entity types print differently. */
  lemma TypeStringInjective(a: int, b: int)
    requires a != b && GoInt.InInt64(a) && GoInt.InInt64(b)
    ensures TypeString(a) != TypeString(b)
  {
    TypeNamesOk();
    GoEnum.NameInjective(TypeNames, "EntityType", a, b);
  }

  /** Go's lower-case hexadecimal digits. */
  const LowerHex: string := "0123456789abcdef"

  /** An ASCII control rune: below the space, or DEL. */
  predicate IsControl(c: char) {
    c as int < 0x20 || c as int == 0x7F
  }

  /**
   * The escapes of fmt's %q verb for ASCII runes: the quote and the
   * backslash get a backslash, the seven controls with a letter escape use
   * it, any other control becomes \x and two lower-case hex digits.
   */
  function Escape(c: char): (r: string)
    ensures r != [] && forall k :: 0 <= k < |r| ==> !IsControl(r[k])
    ensures !IsControl(c) && c != '"' && c != '\\' ==> r == [c]
  {
    var n := c as int;
    if c == '"' then "\\\""
    else if c == '\\' then "\\\\"
    else if n == 7 then "\\a"
    else if n == 8 then "\\b"
    else if n == 12 then "\\f"
    else if c == '\n' then "\\n"
    else if c == '\r' then "\\r"
    else if c == '\t' then "\\t"
    else if n == 11 then "\\v"
    else if IsControl(c) then "\\x" + [LowerHex[n / 16], LowerHex[n % 16]]
    else [c]
  }

  /** The quoted text: the text between double quotes, every rune escaped as %q does. */
  function Quote(s: string): (r: string)
    ensures |r| >= 2 && r[0] == '"' && r[|r| - 1] == '"'
    ensures forall k :: 0 <= k < |r| ==> !IsControl(r[k])
  {
    "\"" + QuoteBody(s) + "\""
  }

  /** The escaped runes of s: no control rune survives, and at least one rune stands for each. */
  function QuoteBody(s: string): (r: string)
    ensures |r| >= |s| && forall k :: 0 <= k < |r| ==> !IsControl(r[k])
  {
    if s == [] then [] else Escape(s[0]) + QuoteBody(s[1..])
  }

  /** A text with nothing to escape is quoted as itself. */
  lemma {:induction false} QuotePlain(s: string)
    requires forall k :: 0 <= k < |s| ==> !IsControl(s[k]) && s[k] != '"' && s[k] != '\\'
    ensures QuoteBody(s) == s
  {
    if s != [] {
      QuotePlain(s[1..]);
    }
  }

  /** The label part of the debug string. */
  function LabelText(labeled: bool): string {
    if labeled then ",labeled" else ""
  }

  /** Entity.String, e.g. Phone("0501234567")[5:15], with ",labeled" inside the brackets when labeled. */
  function EntityString(e: Entity): string {
    TypeString(e.etype) + "(" + Quote(e.text) + ")[" + GoInt.FormatInt(e.start) + ":"
    + GoInt.FormatInt(e.end) + LabelText(e.labeled) + "]"
  }

  /** The decimal form of an int ends with a digit. */
  lemma FormatIntEndsInDigit(n: int)
    ensures |GoInt.FormatInt(n)| > 0 && GoInt.IsDigit(GoInt.FormatInt(n)[|GoInt.FormatInt(n)| - 1])
  {
    var f := GoInt.FormatNat(if n < 0 then -n else n);
    assert GoInt.AllDigits(f);
    if n < 0 {
      assert GoInt.FormatInt(n) == "-" + f;
    }
  }

  /**
   * The debug string ends in ",labeled]" exactly when the entity is
   * labeled; otherwise a digit of End precedes the closing bracket.
   */
  lemma LabeledSuffix(e: Entity)
    ensures var r := EntityString(e);
      |r| >= 9 && (e.labeled <==> r[|r| - 9..] == ",labeled]")
  {
    var r := EntityString(e);
    var head := TypeString(e.etype) + "(" + Quote(e.text) + ")[" + GoInt.FormatInt(e.start) + ":";
    var f := GoInt.FormatInt(e.end);
    FormatIntEndsInDigit(e.end);
    assert r == head + f + LabelText(e.labeled) + "]";
    assert |r| >= 9;
    if !e.labeled {
      assert r == (head + f) + "]";
      assert r[|r| - 2] == f[|f| - 1];
      assert r[|r| - 9..][7] == r[|r| - 2];
    }
  }

  /** The debug string begins with the type's name and an opening parenthesis. */
  lemma StringStartsWithType(e: Entity)
    ensures TypeString(e.etype) + "(" <= EntityString(e)
  {
    ParenPrefix(TypeString(e.etype), Quote(e.text), GoInt.FormatInt(e.start), GoInt.FormatInt(e.end), LabelText(e.labeled));
  }

  /** The shape of EntityString over any parts: the name and "(" come first. */
  lemma ParenPrefix(name: string, quoted: string, start: string, end: string, tail: string)
    ensures name + "(" <= name + "(" + quoted + ")[" + start + ":" + end + tail + "]"
  {
    var rest := quoted + ")[" + start + ":" + end + tail + "]";
    assert name + "(" + quoted + ")[" + start + ":" + end + tail + "]" == (name + "(") + rest;
  }
}
