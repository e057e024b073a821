/**
 * Character classes and string helpers shared by every package.
 *
 * Go's `unicode` tables cover all of Unicode; here they are written out for the
 * blocks the library works on (ASCII, Latin-1, Latin Extended-A with the
 * Azerbaijani letters, schwa, Cyrillic with its Azerbaijani extensions, and a
 * few letter blocks for the script checks). `IsSpace` is Go's exact list.
 */
module Unicode {
  /** Go's unicode.IsSpace. */
  predicate IsSpace(c: char) {
    c == '\t' || c == '\n' || c == '\U{000B}' || c == '\U{000C}' || c == '\r' || c == ' '
    || c == '\U{0085}' || c == '\U{00A0}' || c == '\U{1680}'
    || ('\U{2000}' <= c <= '\U{200A}')
    || c == '\U{2028}' || c == '\U{2029}' || c == '\U{202F}' || c == '\U{205F}' || c == '\U{3000}'
  }

  /** Upper-case to lower-case mapping (Go's unicode.ToLower) on the modelled blocks. */
  function ToLower(c: char): char {
    var n := c as int;
    if 'A' <= c <= 'Z' then (n + 32) as char
    else if 0xC0 <= n <= 0xDE && n != 0xD7 then (n + 32) as char
    else if 0x100 <= n <= 0x12F && n % 2 == 0 then (n + 1) as char
    else if n == 0x130 then 'i'
    else if 0x132 <= n <= 0x137 && n % 2 == 0 then (n + 1) as char
    else if 0x139 <= n <= 0x148 && n % 2 == 1 then (n + 1) as char
    else if 0x14A <= n <= 0x177 && n % 2 == 0 then (n + 1) as char
    else if n == 0x178 then '\U{00FF}'
    else if 0x179 <= n <= 0x17E && n % 2 == 1 then (n + 1) as char
    else if n == 0x18F then '\U{0259}'
    else if 0x400 <= n <= 0x40F then (n + 80) as char
    else if 0x410 <= n <= 0x42F then (n + 32) as char
    else if 0x460 <= n <= 0x481 && n % 2 == 0 then (n + 1) as char
    else if 0x48A <= n <= 0x4BF && n % 2 == 0 then (n + 1) as char
    else if n == 0x4C0 then '\U{04CF}'
    else if 0x4C1 <= n <= 0x4CE && n % 2 == 1 then (n + 1) as char
    else if 0x4D0 <= n <= 0x52F && n % 2 == 0 then (n + 1) as char
    else c
  }

  /** Lower-case to upper-case mapping (Go's unicode.ToUpper) on the modelled blocks. */
  function ToUpper(c: char): char {
    var n := c as int;
    if 'a' <= c <= 'z' then (n - 32) as char
    else if 0xE0 <= n <= 0xFE && n != 0xF7 then (n - 32) as char
    else if n == 0xFF then '\U{0178}'
    else if 0x101 <= n <= 0x12F && n % 2 == 1 then (n - 1) as char
    else if n == 0x131 then 'I'
    else if 0x133 <= n <= 0x137 && n % 2 == 1 then (n - 1) as char
    else if 0x13A <= n <= 0x148 && n % 2 == 0 then (n - 1) as char
    else if 0x14B <= n <= 0x177 && n % 2 == 1 then (n - 1) as char
    else if 0x17A <= n <= 0x17E && n % 2 == 0 then (n - 1) as char
    else if n == 0x259 then '\U{018F}'
    else if 0x430 <= n <= 0x44F then (n - 32) as char
    else if 0x450 <= n <= 0x45F then (n - 80) as char
    else if 0x461 <= n <= 0x481 && n % 2 == 1 then (n - 1) as char
    else if 0x48B <= n <= 0x4BF && n % 2 == 1 then (n - 1) as char
    else if n == 0x4CF then '\U{04C0}'
    else if 0x4C2 <= n <= 0x4CE && n % 2 == 0 then (n - 1) as char
    else if 0x4D1 <= n <= 0x52F && n % 2 == 1 then (n - 1) as char
    else c
  }

  /** Go's unicode.IsUpper / IsLower on the modelled blocks: the runes the case mappings move. */
  predicate IsUpper(c: char) { ToLower(c) != c }
  predicate IsLower(c: char) { ToUpper(c) != c || c == '\U{00DF}' || c == '\U{0138}' }

  /** Go's unicode.IsLetter on the modelled blocks. */
  predicate IsLetter(c: char) {
    var n := c as int;
    IsUpper(c) || IsLower(c)
    || n == 0xAA || n == 0xBA || n == 0x149
    || (0x180 <= n <= 0x2AF)
    || (0x391 <= n <= 0x3A9) || (0x3B1 <= n <= 0x3C9)
    || (0x400 <= n <= 0x52F && !(0x482 <= n <= 0x489))
    || (0x620 <= n <= 0x64A) || (0x671 <= n <= 0x6D3)
    || (0x4E00 <= n <= 0x9FFF)
  }

  /** Go's unicode.IsDigit (decimal digits) on the modelled blocks. */
  predicate IsDigit(c: char) {
    var n := c as int;
    ('0' <= c <= '9') || (0x660 <= n <= 0x669) || (0x6F0 <= n <= 0x6F9) || (0xFF10 <= n <= 0xFF19)
  }

  /** Go's unicode.IsPunct (category P) on the modelled blocks. */
  predicate IsPunct(c: char) {
    var n := c as int;
    c == '!' || c == '"' || c == '#' || c == '%' || c == '&' || c == '\'' || c == '(' || c == ')'
    || c == '*' || c == ',' || c == '-' || c == '.' || c == '/' || c == ':' || c == ';' || c == '?'
    || c == '@' || c == '[' || c == '\\' || c == ']' || c == '_' || c == '{' || c == '}'
    || n == 0xA1 || n == 0xA7 || n == 0xAB || n == 0xB6 || n == 0xB7 || n == 0xBB || n == 0xBF
    || n == 0x60C || n == 0x61B || n == 0x61F || n == 0x6D4
    || (0x2010 <= n <= 0x2027) || (0x2030 <= n <= 0x2043) || (0x2045 <= n <= 0x2051)
    || (0x2053 <= n <= 0x205E) || (0x3001 <= n <= 0x3003) || (0x3008 <= n <= 0x3011)
  }

  predicate IsAsciiDigit(c: char) { '0' <= c <= '9' }
  predicate IsAsciiLetter(c: char) { 'a' <= c <= 'z' || 'A' <= c <= 'Z' }

  /** Number of bytes of the UTF-8 encoding of a rune. */
  function RuneLen(c: char): (w: nat)
    ensures 1 <= w <= 4
    ensures w == 1 <==> (c as int) < 0x80
  {
    var n := c as int;
    if n < 0x80 then 1 else if n < 0x800 then 2 else if n < 0x10000 then 3 else 4
  }

  /** Byte length of the UTF-8 encoding of a string (Go's len). */
  function ByteLen(s: string): nat {
    if s == [] then 0 else ByteLen(s[..|s| - 1]) + RuneLen(s[|s| - 1])
  }

  lemma {:induction false} ByteLenBounds(s: string)
    ensures |s| <= ByteLen(s) <= 4 * |s|
  {
    if s != [] { ByteLenBounds(s[..|s| - 1]); }
  }

  lemma {:induction false} ByteLenAppend(s: string, t: string)
    ensures ByteLen(s + t) == ByteLen(s) + ByteLen(t)
    decreases |t|
  {
    if t == [] {
      assert s + t == s;
    } else {
      assert (s + t)[..|s + t| - 1] == s + t[..|t| - 1];
      ByteLenAppend(s, t[..|t| - 1]);
    }
  }

  /** Rune-wise lower-casing (Go's strings.ToLower). */
  function Lower(s: string): (r: string)
    ensures |r| == |s| && forall i :: 0 <= i < |s| ==> r[i] == ToLower(s[i])
  {
    seq(|s|, i requires 0 <= i < |s| => ToLower(s[i]))
  }

  /** Rune-wise upper-casing (Go's strings.ToUpper). */
  function Upper(s: string): (r: string)
    ensures |r| == |s| && forall i :: 0 <= i < |s| ==> r[i] == ToUpper(s[i])
  {
    seq(|s|, i requires 0 <= i < |s| => ToUpper(s[i]))
  }

  predicate NoSpace(w: string) { forall i :: 0 <= i < |w| ==> !IsSpace(w[i]) }

  /** The longest prefix of s without white space. */
  function Word(s: string): (w: string)
    ensures w <= s && NoSpace(w)
    ensures |w| < |s| ==> IsSpace(s[|w|])
  {
    if s == [] || IsSpace(s[0]) then [] else [s[0]] + Word(s[1..])
  }

  /** Go's strings.Fields: the maximal runs of non-space runes, in order. */
  function Fields(s: string): (ws: seq<string>)
    ensures forall k :: 0 <= k < |ws| ==> ws[k] != [] && NoSpace(ws[k])
    decreases |s|
  {
    if s == [] then []
    else if IsSpace(s[0]) then Fields(s[1..])
    else var w := Word(s); [w] + Fields(s[|w|..])
  }

  /** Go's strings.Join. */
  function Join(ws: seq<string>, sep: string): string {
    if |ws| == 0 then "" else if |ws| == 1 then ws[0] else ws[0] + sep + Join(ws[1..], sep)
  }

  /** Joining two non-empty lists puts one separator between their joins. */
  lemma {:induction false} JoinAppend(ws: seq<string>, vs: seq<string>, sep: string)
    requires ws != [] && vs != []
    ensures Join(ws + vs, sep) == Join(ws, sep) + sep + Join(vs, sep)
    decreases |ws|
  {
    if |ws| > 1 {
      assert (ws + vs)[1..] == ws[1..] + vs;
      JoinAppend(ws[1..], vs, sep);
    } else {
      assert (ws + vs)[1..] == vs;
    }
  }

  /** A join of non-empty words is empty exactly when there are no words. */
  lemma {:induction false} JoinEmpty(ws: seq<string>, sep: string)
    requires forall k :: 0 <= k < |ws| ==> ws[k] != []
    ensures (Join(ws, sep) == []) <==> (ws == [])
    ensures ws != [] ==> |Join(ws, sep)| >= |ws[0]| && Join(ws, sep)[..|ws[0]|] == ws[0]
    ensures ws != [] ==> Join(ws, sep)[|Join(ws, sep)| - 1] == ws[|ws| - 1][|ws[|ws| - 1]| - 1]
    decreases |ws|
  {
    if |ws| > 1 {
      JoinEmpty(ws[1..], sep);
      var j := Join(ws[1..], sep);
      assert Join(ws, sep) == ws[0] + sep + j;
      assert (ws[0] + sep + j)[..|ws[0]|] == ws[0];
    }
  }

  lemma {:induction false} WordOfSpaced(w: string, rest: string)
    requires NoSpace(w)
    requires rest == [] || IsSpace(rest[0])
    ensures Word(w + rest) == w
    decreases |w|
  {
    if w == [] {
      assert w + rest == rest;
    } else {
      assert (w + rest)[1..] == w[1..] + rest;
      WordOfSpaced(w[1..], rest);
    }
  }

  /** Splitting single-space-joined words yields the words back. */
  lemma {:induction false} FieldsOfJoin(ws: seq<string>)
    requires forall k :: 0 <= k < |ws| ==> ws[k] != [] && NoSpace(ws[k])
    ensures Fields(Join(ws, " ")) == ws
  {
    if |ws| == 1 {
      WordOfSpaced(ws[0], []);
      assert ws[0] + [] == ws[0];
      assert Join(ws, " ")[|ws[0]|..] == [];
    } else if |ws| > 1 {
      var s := Join(ws, " ");
      var rest := " " + Join(ws[1..], " ");
      assert s == ws[0] + rest;
      WordOfSpaced(ws[0], rest);
      assert s[|ws[0]|..] == rest;
      assert rest[1..] == Join(ws[1..], " ");
      FieldsOfJoin(ws[1..]);
      assert Fields(rest) == Fields(Join(ws[1..], " "));
    }
  }

  /** Strip leading runes satisfying Go's unicode.IsSpace. */
  function TrimLeft(s: string): (r: string)
    ensures r == [] || !IsSpace(r[0])
    ensures exists k :: 0 <= k <= |s| && r == s[k..]
  {
    if s != [] && IsSpace(s[0]) then (var r := TrimLeft(s[1..]); assert exists k :: 0 <= k <= |s[1..]| && r == s[1..][k..]; var k :| 0 <= k <= |s[1..]| && r == s[1..][k..]; assert r == s[k + 1..]; r) else (assert s == s[0..]; s)
  }

  /** Strip trailing runes satisfying Go's unicode.IsSpace. */
  function TrimRight(s: string): (r: string)
    ensures r <= s
    ensures r == [] || !IsSpace(r[|r| - 1])
  {
    if s != [] && IsSpace(s[|s| - 1]) then TrimRight(s[..|s| - 1]) else s
  }

  /** Go's strings.TrimSpace. */
  function TrimSpace(s: string): string { TrimRight(TrimLeft(s)) }

  /** Trimming leaves a string alone when it neither starts nor ends with white space. */
  lemma TrimSpaceId(s: string)
    requires s != [] && !IsSpace(s[0]) && !IsSpace(s[|s| - 1])
    ensures TrimSpace(s) == s
  {
  }

  /** Text that lower-casing leaves unchanged. */
  predicate LowerFixed(s: string) { forall i :: 0 <= i < |s| ==> ToLower(s[i]) == s[i] }

  lemma LowerFixedAppend(a: string, b: string)
    requires LowerFixed(a) && LowerFixed(b)
    ensures LowerFixed(a + b)
  {
    forall i | 0 <= i < |a + b| ensures ToLower((a + b)[i]) == (a + b)[i] {
      if i < |a| { assert (a + b)[i] == a[i]; } else { assert (a + b)[i] == b[i - |a|]; }
    }
  }

  /** Joining lower-case words with a lower-case separator gives text that lower-casing leaves alone. */
  lemma {:induction false} JoinLower(ws: seq<string>, sep: string)
    requires forall k :: 0 <= k < |ws| ==> LowerFixed(ws[k])
    requires LowerFixed(sep)
    ensures LowerFixed(Join(ws, sep)) && Lower(Join(ws, sep)) == Join(ws, sep)
    decreases |ws|
  {
    if |ws| > 1 {
      JoinLower(ws[1..], sep);
      LowerFixedAppend(ws[0], sep);
      LowerFixedAppend(ws[0] + sep, Join(ws[1..], sep));
    }
  }
  /** Go's strings.Split on a one-rune separator: the pieces between separators, at least one. */
  function Split(s: string, sep: char): (parts: seq<string>)
    ensures parts != []
    ensures forall k, i :: 0 <= k < |parts| && 0 <= i < |parts[k]| ==> parts[k][i] != sep
    decreases |s|
  {
    if s == [] then [""]
    else
      var rest := Split(s[1..], sep);
      if s[0] == sep then [""] + rest
      else
        var first := [s[0]] + rest[0];
        assert forall i :: 1 <= i < |first| ==> first[i] == rest[0][i - 1];
        [first] + rest[1..]
  }

  /** Joining the pieces with the separator gives the string back. */
  lemma {:induction false} JoinSplit(s: string, sep: char)
    ensures Join(Split(s, sep), [sep]) == s
    decreases |s|
  {
    if s != [] {
      var rest := Split(s[1..], sep);
      JoinSplit(s[1..], sep);
      if s[0] == sep {
        assert Split(s, sep)[1..] == rest;
      } else {
        var parts := Split(s, sep);
        assert parts[1..] == rest[1..];
        if |rest| > 1 {
          assert Join(rest, [sep]) == rest[0] + [sep] + Join(rest[1..], [sep]);
        }
      }
    }
  }

  /** The end of the run of runes satisfying p that starts at j. */
  function RunEnd(s: string, j: nat, p: char -> bool): (k: nat)
    requires j <= |s|
    ensures j <= k <= |s|
    ensures forall m :: j <= m < k ==> p(s[m])
    ensures k == |s| || !p(s[k])
    decreases |s| - j
  {
    if j == |s| || !p(s[j]) then j else RunEnd(s, j + 1, p)
  }

  /** The start of the run of runes satisfying p that ends at j. */
  function RunStart(s: string, j: nat, p: char -> bool): (k: nat)
    requires j <= |s|
    ensures k <= j
    ensures forall m :: k <= m < j ==> p(s[m])
    ensures k == 0 || !p(s[k - 1])
  {
    if j == 0 || !p(s[j - 1]) then j else RunStart(s, j - 1, p)
  }

  /** The three apostrophes the library treats alike: U+0027, U+2019 and U+02BC. */
  predicate IsApostrophe(r: char) { r == '\'' || r == '\U{2019}' || r == '\U{02BC}' }

  /** Go's strings.LastIndex for a one-rune needle: the last index of c, or -1. */
  function LastIndex(s: string, c: char): (i: int)
    ensures -1 <= i < |s|
    ensures i >= 0 ==> s[i] == c
    ensures forall k :: i < k < |s| ==> s[k] != c
  {
    if s == [] then -1
    else if s[|s| - 1] == c then |s| - 1
    else LastIndex(s[..|s| - 1], c)
  }
}
