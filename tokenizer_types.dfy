/**
 * Tokens of the tokenizer: a text with its [start, end) offsets into the
 * input and a type, and the tiling invariant every token list keeps: the
 * tokens are non-empty, contiguous slices of the input from offset 0.
 *
 * Offsets are rune indices here; the library reports byte offsets, which
 * differ only by the encoded width of the runes before them.
 */
module TokenizerTypes {
  import GoInt
  import GoEnum

  /** Go's TokenType is an int; the eight named values are 0 to 7. */
  const Word: int := 0
  const Number: int := 1
  const Punctuation: int := 2
  const Space: int := 3
  const Symbol: int := 4
  const URL: int := 5
  const Email: int := 6
  const Sentence: int := 7

  datatype Token = Token(text: string, start: nat, end: nat, ttype: int)

  /** The names of the eight token types, in value order. */
  const TypeNames: seq<string> := ["Word", "Number", "Punctuation", "Space", "Symbol", "URL", "Email", "Sentence"]

  /** TokenType.String: the name of a known type, else TokenType(n). */
  function TypeString(t: int): string {
    GoEnum.Name(TypeNames, "TokenType", t)
  }

  /** The eight names are distinct and none looks like the fallback form. */
  lemma TypeNamesOk()
    ensures GoEnum.Distinct(TypeNames) && GoEnum.NoFallback(TypeNames, "TokenType")
  {
    forall a, b | 0 <= a < b < |TypeNames| ensures TypeNames[a] != TypeNames[b] {
      assert TypeNames[a][0] != TypeNames[b][0] || TypeNames[a][1] != TypeNames[b][1];
    }
    forall k | 0 <= k < |TypeNames| ensures !("TokenType(" <= TypeNames[k]) {
      assert TypeNames[k][0] != 'T';
    }
  }

  /** Different type values print differently. */
  lemma TypeStringInjective(a: int, b: int)
    requires a != b && GoInt.InInt64(a) && GoInt.InInt64(b)
    ensures TypeString(a) != TypeString(b)
  {
    TypeNamesOk();
    GoEnum.NameInjective(TypeNames, "TokenType", a, b);
  }

  /** Every token is a non-empty slice text == s[start..end]. */
  predicate Slices(ts: seq<Token>, s: string) {
    forall k :: 0 <= k < |ts| ==> ts[k].start < ts[k].end <= |s| && ts[k].text == s[ts[k].start..ts[k].end]
  }

  /** Each token starts where the previous one ends. */
  predicate Contiguous(ts: seq<Token>) {
    forall k :: 0 <= k < |ts| - 1 ==> ts[k].end == ts[k + 1].start
  }

  /** ts tiles s[..n]: contiguous non-empty slices from 0 to n. */
  predicate Tiles(ts: seq<Token>, s: string, n: nat) {
    n <= |s| && Slices(ts, s) && Contiguous(ts)
    && (ts == [] ==> n == 0)
    && (ts != [] ==> ts[0].start == 0 && ts[|ts| - 1].end == n)
  }

  /** Appending the slice [n, m) to a tiling of s[..n] tiles s[..m]. */
  lemma TilesSnoc(ts: seq<Token>, s: string, n: nat, m: nat, t: int)
    requires Tiles(ts, s, n) && n < m <= |s|
    ensures Tiles(ts + [Token(s[n..m], n, m, t)], s, m)
  {
  }

  /** Dropping the last token of a tiling tiles up to where that token started. */
  lemma TilesInit(ts: seq<Token>, s: string, n: nat)
    requires Tiles(ts, s, n) && ts != []
    ensures Tiles(ts[..|ts| - 1], s, ts[|ts| - 1].start)
  {
    var init := ts[..|ts| - 1];
    assert forall k :: 0 <= k < |init| ==> init[k] == ts[k];
  }

  /** The texts of the tokens, concatenated. */
  function Concat(ts: seq<Token>): string {
    if ts == [] then "" else Concat(ts[..|ts| - 1]) + ts[|ts| - 1].text
  }

  /** A tiling of s[..n] concatenates back to s[..n]. */
  lemma {:induction false} TilesConcat(ts: seq<Token>, s: string, n: nat)
    requires Tiles(ts, s, n)
    ensures Concat(ts) == s[..n]
    decreases |ts|
  {
    if ts != [] {
      var init := ts[..|ts| - 1];
      var last := ts[|ts| - 1];
      TilesInit(ts, s, n);
      TilesConcat(init, s, last.start);
      assert s[..last.start] + s[last.start..n] == s[..n];
    }
  }
}
