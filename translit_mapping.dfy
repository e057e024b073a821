/** The letter tables between Azerbaijani Cyrillic and Latin script. */
module TranslitMapping {
  import opened Wrappers

  /**
   * Cyrillic to Latin, keyed by code point (the letters are named at the end
   * of each row); Г and г are resolved by context, so they are not keys.
   */
  function CyrToLat(c: char): Option<char> {
    match c as int
    case 0x0410 => Some('A') case 0x0430 => Some('a') case 0x0411 => Some('B') case 0x0431 => Some('b')  // А а Б б
    case 0x0412 => Some('V') case 0x0432 => Some('v') case 0x0492 => Some('Ğ') case 0x0493 => Some('ğ')  // В в Ғ ғ
    case 0x0414 => Some('D') case 0x0434 => Some('d') case 0x0415 => Some('E') case 0x0435 => Some('e')  // Д д Е е
    case 0x04D8 => Some('Ə') case 0x04D9 => Some('ə') case 0x0416 => Some('J') case 0x0436 => Some('j')  // Ә ә Ж ж
    case 0x0417 => Some('Z') case 0x0437 => Some('z') case 0x0418 => Some('İ') case 0x0438 => Some('i')  // З з И и
    case 0x0419 => Some('Y') case 0x0439 => Some('y') case 0x0408 => Some('Y') case 0x0458 => Some('y')  // Й й Ј ј
    case 0x041A => Some('K') case 0x043A => Some('k') case 0x049C => Some('G') case 0x049D => Some('g')  // К к Ҝ ҝ
    case 0x041B => Some('L') case 0x043B => Some('l') case 0x041C => Some('M') case 0x043C => Some('m')  // Л л М м
    case 0x041D => Some('N') case 0x043D => Some('n') case 0x041E => Some('O') case 0x043E => Some('o')  // Н н О о
    case 0x04E8 => Some('Ö') case 0x04E9 => Some('ö') case 0x041F => Some('P') case 0x043F => Some('p')  // Ө ө П п
    case 0x0420 => Some('R') case 0x0440 => Some('r') case 0x0421 => Some('S') case 0x0441 => Some('s')  // Р р С с
    case 0x0422 => Some('T') case 0x0442 => Some('t') case 0x0423 => Some('U') case 0x0443 => Some('u')  // Т т У у
    case 0x04AE => Some('Ü') case 0x04AF => Some('ü') case 0x0424 => Some('F') case 0x0444 => Some('f')  // Ү ү Ф ф
    case 0x0425 => Some('X') case 0x0445 => Some('x') case 0x04BA => Some('H') case 0x04BB => Some('h')  // Х х Һ һ
    case 0x0427 => Some('Ç') case 0x0447 => Some('ç') case 0x04B8 => Some('C') case 0x04B9 => Some('c')  // Ч ч Ҹ ҹ
    case 0x0428 => Some('Ş') case 0x0448 => Some('ş') case 0x042B => Some('I') case 0x044B => Some('ı')  // Ш ш Ы ы
    case _ => None
  }

  /** Latin to Cyrillic, keyed by code point: each of the 32 letters in both cases; Q goes to Г and G to Ҝ. */
  function LatToCyr(c: char): Option<char> {
    match c as int
    case 0x0041 => Some('А') case 0x0061 => Some('а') case 0x0042 => Some('Б') case 0x0062 => Some('б')  // A a B b
    case 0x0043 => Some('Ҹ') case 0x0063 => Some('ҹ') case 0x00C7 => Some('Ч') case 0x00E7 => Some('ч')  // C c Ç ç
    case 0x0044 => Some('Д') case 0x0064 => Some('д') case 0x0045 => Some('Е') case 0x0065 => Some('е')  // D d E e
    case 0x018F => Some('Ә') case 0x0259 => Some('ә') case 0x0046 => Some('Ф') case 0x0066 => Some('ф')  // Ə ə F f
    case 0x0047 => Some('Ҝ') case 0x0067 => Some('ҝ') case 0x011E => Some('Ғ') case 0x011F => Some('ғ')  // G g Ğ ğ
    case 0x0048 => Some('Һ') case 0x0068 => Some('һ') case 0x0049 => Some('Ы') case 0x0131 => Some('ы')  // H h I ı
    case 0x0130 => Some('И') case 0x0069 => Some('и') case 0x004A => Some('Ж') case 0x006A => Some('ж')  // İ i J j
    case 0x004B => Some('К') case 0x006B => Some('к') case 0x004C => Some('Л') case 0x006C => Some('л')  // K k L l
    case 0x004D => Some('М') case 0x006D => Some('м') case 0x004E => Some('Н') case 0x006E => Some('н')  // M m N n
    case 0x004F => Some('О') case 0x006F => Some('о') case 0x00D6 => Some('Ө') case 0x00F6 => Some('ө')  // O o Ö ö
    case 0x0050 => Some('П') case 0x0070 => Some('п') case 0x0051 => Some('Г') case 0x0071 => Some('г')  // P p Q q
    case 0x0052 => Some('Р') case 0x0072 => Some('р') case 0x0053 => Some('С') case 0x0073 => Some('с')  // R r S s
    case 0x015E => Some('Ш') case 0x015F => Some('ш') case 0x0054 => Some('Т') case 0x0074 => Some('т')  // Ş ş T t
    case 0x0055 => Some('У') case 0x0075 => Some('у') case 0x00DC => Some('Ү') case 0x00FC => Some('ү')  // U u Ü ü
    case 0x0056 => Some('В') case 0x0076 => Some('в') case 0x0058 => Some('Х') case 0x0078 => Some('х')  // V v X x
    case 0x0059 => Some('Ј') case 0x0079 => Some('ј') case 0x005A => Some('З') case 0x007A => Some('з')  // Y y Z z
    case _ => None
  }

  /** Cyrillic front vowels, which make a preceding Г read as G. */
  predicate IsFrontVowel(c: char) {
    c in {'Ә', 'ә', 'Е', 'е', 'И', 'и', 'Ө', 'ө', 'Ү', 'ү'}
  }

  /** Every Latin letter except Q and q comes back through the Cyrillic table; Q and q go to Г and г, which are not keys. */
  lemma TablesInverse(c: char)
    requires LatToCyr(c).Some?
    ensures c != 'Q' && c != 'q' ==> CyrToLat(LatToCyr(c).value) == Some(c)
    ensures c == 'Q' ==> LatToCyr(c).value == 'Г'
    ensures c == 'q' ==> LatToCyr(c).value == 'г'
  {
    if c <= 'Z' {
      UpperInverse(c);
    } else if c <= 'z' {
      LowerInverse(c);
    } else {
      ExtendedInverse(c);
    }
  }

  lemma UpperInverse(c: char)
    requires LatToCyr(c).Some? && c <= 'Z'
    ensures c != 'Q' ==> CyrToLat(LatToCyr(c).value) == Some(c)
    ensures c == 'Q' ==> LatToCyr(c).value == 'Г'
  {
  }

  lemma LowerInverse(c: char)
    requires LatToCyr(c).Some? && 'Z' < c <= 'z'
    ensures c != 'q' ==> CyrToLat(LatToCyr(c).value) == Some(c)
    ensures c == 'q' ==> LatToCyr(c).value == 'г'
  {
  }

  lemma ExtendedInverse(c: char)
    requires LatToCyr(c).Some? && 'z' < c
    ensures CyrToLat(LatToCyr(c).value) == Some(c)
  {
  }

  /** Distinct Latin letters never share a Cyrillic letter. */
  lemma LatToCyrInjective(a: char, b: char)
    requires LatToCyr(a).Some? && LatToCyr(b).Some? && a != b
    ensures LatToCyr(a).value != LatToCyr(b).value
  {
    TablesInverse(a);
    TablesInverse(b);
    if a == 'Q' || a == 'q' || b == 'Q' || b == 'q' {
      SpecialLettersNotKeys();
    }
  }

  /** The Russian short I and the Azerbaijani Je both read as Y. */
  lemma ShortIAndJe()
    ensures CyrToLat('Й') == CyrToLat('Ј') == Some('Y') && CyrToLat('й') == CyrToLat('ј') == Some('y')
  {
  }

  /** No table key is one of the letters the conversion loop handles itself. */
  lemma SpecialLettersNotKeys()
    ensures CyrToLat('Г').None? && CyrToLat('г').None?
    ensures CyrToLat('Ь').None? && CyrToLat('ь').None? && CyrToLat('Ъ').None? && CyrToLat('ъ').None?
  {
    GheNotKey();
    SignsNotKeys();
  }

  lemma GheNotKey()
    ensures CyrToLat('Г').None? && CyrToLat('г').None?
  {
  }

  lemma SignsNotKeys()
    ensures CyrToLat('Ь').None? && CyrToLat('ь').None? && CyrToLat('Ъ').None? && CyrToLat('ъ').None?
  {
    SoftSignNotKey();
    HardSignNotKey();
  }

  lemma SoftSignNotKey()
    ensures CyrToLat('Ь').None? && CyrToLat('ь').None?
  {
  }

  lemma HardSignNotKey()
    ensures CyrToLat('Ъ').None? && CyrToLat('ъ').None?
  {
  }
}
