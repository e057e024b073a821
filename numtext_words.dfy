/** The word tables and limits shared by number-to-text conversion and parsing. */
module NumtextWords {
  import opened Wrappers

  const MaxAbs: int := 1_000_000_000_000_000_000
  const Hundred: int := 100

  const WordNegative: string := "mənfi"
  const WordHundred: string := "yüz"
  const WordExact: string := "tam"
  const WordComma: string := "vergül"
  const WordZero: string := "sıfır"

  const Ones: seq<string> := ["sıfır", "bir", "iki", "üç", "dörd", "beş", "altı", "yeddi", "səkkiz", "doqquz"]
  /** Indexed by the tens digit; index 0 is unused. */
  const Tens: seq<string> := ["", "on", "iyirmi", "otuz", "qırx", "əlli", "altmış", "yetmiş", "səksən", "doxsan"]

  datatype Magnitude = Magnitude(value: int, word: string)

  /** Named powers of ten, largest first; yüz is handled inside a group. */
  const Magnitudes: seq<Magnitude> := [
    Magnitude(1_000_000_000_000_000_000, "kvintilyon"),
    Magnitude(1_000_000_000_000_000, "kvadrilyon"),
    Magnitude(1_000_000_000_000, "trilyon"),
    Magnitude(1_000_000_000, "milyard"),
    Magnitude(1_000_000, "milyon"),
    Magnitude(1_000, "min")
  ]

  /** Denominator words for one to three fractional digits; index 0 is unused. */
  const Denominators: seq<string> := ["", "onda", "yüzdə", "mində"]

  /** 10^e for e in 0..18. */
  function PowerOf10(e: nat): (p: int)
    ensures p >= 1
  {
    if e == 0 then 1 else 10 * PowerOf10(e - 1)
  }

  /** The parser's word table: the value of each cardinal word. */
  function WordValue(w: string): (v: Option<int>)
    ensures v.Some? ==> 0 <= v.value <= MaxAbs
  {
    match w
    case "sıfır" => Some(0) case "bir" => Some(1) case "iki" => Some(2) case "üç" => Some(3)
    case "dörd" => Some(4) case "beş" => Some(5) case "altı" => Some(6) case "yeddi" => Some(7)
    case "səkkiz" => Some(8) case "doqquz" => Some(9) case "on" => Some(10) case "iyirmi" => Some(20)
    case "otuz" => Some(30) case "qırx" => Some(40) case "əlli" => Some(50) case "altmış" => Some(60)
    case "yetmiş" => Some(70) case "səksən" => Some(80) case "doxsan" => Some(90)
    case "yüz" => Some(100) case "min" => Some(1_000) case "milyon" => Some(1_000_000)
    case "milyard" => Some(1_000_000_000) case "trilyon" => Some(1_000_000_000_000)
    case "kvadrilyon" => Some(1_000_000_000_000_000) case "kvintilyon" => Some(1_000_000_000_000_000_000)
    case _ => None
  }

  /** The parser's table agrees with the tables the converter writes from. */
  lemma TablesAgree()
    ensures forall d :: 0 <= d < 10 ==> WordValue(Ones[d]) == Some(d)
    ensures forall t :: 1 <= t < 10 ==> WordValue(Tens[t]) == Some(10 * t)
    ensures forall k :: 0 <= k < |Magnitudes| ==> WordValue(Magnitudes[k].word) == Some(Magnitudes[k].value)
    ensures WordValue(WordHundred) == Some(Hundred) && WordValue(WordNegative).None?
  {
    OnesAgree();
    TensAgree();
    MagnitudesAgree();
  }

  lemma OnesAgree()
    ensures forall d :: 0 <= d < 10 ==> WordValue(Ones[d]) == Some(d)
  {
  }

  lemma TensAgree()
    ensures forall t :: 1 <= t < 10 ==> WordValue(Tens[t]) == Some(10 * t)
  {
  }

  lemma MagnitudesAgree()
    ensures forall k :: 0 <= k < |Magnitudes| ==> WordValue(Magnitudes[k].word) == Some(Magnitudes[k].value)
  {
  }
}
