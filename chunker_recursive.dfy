/**
 * Recursive: splits the text hierarchically (paragraph, sentence, word,
 * rune) into fragments of at most size runes, greedily merges neighbours
 * back up to size, and extends each chunk backwards by the overlap.
 * Offsets are rune indices.
 */
module ChunkerRecursive {
  import opened Chunker
  import T = TokenizerTypes
  import Tokenizer
  import Se = TokenizerSentence
  import Sc = TokenizerScanner
  import opened Wrappers

  /** A text segment [start, end). */
  datatype Frag = Frag(start: nat, end: nat)

  /** The separator of paragraphs, "\n\n", starts at j of s. */
  predicate IsSep(s: string, j: int) {
    0 <= j && j + 1 < |s| && s[j] == '\n' && s[j + 1] == '\n'
  }

  function Len(f: Frag): int {
    f.end - f.start
  }

  /** Every piece lies inside [a, b). */
  predicate Within(ps: seq<Frag>, a: int, b: int) {
    forall k :: 0 <= k < |ps| ==> a <= ps[k].start <= ps[k].end <= b
  }

  /** Pieces come in text order without overlapping. */
  predicate Ordered(ps: seq<Frag>) {
    forall k :: 0 <= k < |ps| - 1 ==> ps[k].end <= ps[k + 1].start
  }

  /** No piece is longer than size runes. */
  predicate Small(ps: seq<Frag>, size: int) {
    forall k :: 0 <= k < |ps| ==> Len(ps[k]) <= size
  }

  /** Each piece starts where the previous one ends. */
  predicate Adjacent(ps: seq<Frag>) {
    forall k :: 0 <= k < |ps| - 1 ==> ps[k].end == ps[k + 1].start
  }

  /** The pieces are non-empty and cover [a, b) without gaps or overlaps. */
  predicate FragTiles(ps: seq<Frag>, a: int, b: int) {
    Within(ps, a, b) && Adjacent(ps) && (forall k :: 0 <= k < |ps| ==> ps[k].start < ps[k].end)
    && (ps == [] ==> a == b)
    && (ps != [] ==> ps[0].start == a && ps[|ps| - 1].end == b)
  }

  // ---------------------------------------------------------------------
  // Paragraphs
  // ---------------------------------------------------------------------

  /** A paragraph piece ft[a..b]: it ends with the first separator at or after a. */
  predicate Paragraph(ft: string, a: int, b: int) {
    a + 2 <= b && IsSep(ft, b - 2) && forall j :: a <= j < b - 2 ==> !IsSep(ft, j)
  }

  /** A trailing piece ft[a..b] with no separator in it. */
  predicate Rest(ft: string, a: int, b: int) {
    forall j :: a <= j < b - 1 ==> !IsSep(ft, j)
  }

  /** The first separator of ft at or after from, or -1 when there is none. */
  function FirstSep(ft: string, from: nat): (idx: int)
    requires from <= |ft|
    ensures idx == -1 || (from <= idx && IsSep(ft, idx))
    decreases |ft| - from
  {
    if from + 1 >= |ft| then -1
    else if IsSep(ft, from) then from
    else FirstSep(ft, from + 1)
  }

  /** FirstSep finds no separator before the one it returns, and none at all when it returns -1. */
  lemma {:induction false} FirstSepFirst(ft: string, from: nat, j: int)
    requires from <= |ft| && from <= j && (FirstSep(ft, from) == -1 || j < FirstSep(ft, from))
    ensures !IsSep(ft, j)
    decreases |ft| - from
  {
    if from + 1 < |ft| && !IsSep(ft, from) && from < j {
      FirstSepFirst(ft, from + 1, j);
    }
  }

  /** The separator that closes a paragraph piece [a, b) is the first one at or after a. */
  lemma {:induction false} FirstSepAt(ft: string, a: nat, b: nat)
    requires a <= |ft| && Paragraph(ft, a, b)
    ensures FirstSep(ft, a) == b - 2
    decreases b - a
  {
    if a < b - 2 {
      FirstSepAt(ft, a + 1, b);
    }
  }

  /** With no separator from pos on, the split from pos is the rest, if any. */
  lemma ParagraphsRest(ft: string, base: nat, pos: nat)
    requires pos <= |ft| && FirstSep(ft, pos) == -1
    ensures ParagraphsAt(ft, base, pos) == if pos < |ft| then [Frag(base + pos, base + |ft|)] else []
  {
  }

  /** strings.Index on ft[from..]: the first separator at or after from, or -1. */
  method IndexSep(ft: string, from: nat) returns (idx: int)
    requires from <= |ft|
    ensures idx == FirstSep(ft, from)
    ensures idx == -1 || (from <= idx && IsSep(ft, idx))
    ensures forall j :: from <= j && (idx == -1 || j < idx) ==> !IsSep(ft, j)
  {
    var j := from;
    while j + 1 < |ft|
      invariant from <= j <= |ft|
      invariant FirstSep(ft, j) == FirstSep(ft, from)
      invariant forall i :: from <= i < j ==> !IsSep(ft, i)
      decreases |ft| - j
    {
      if ft[j] == '\n' && ft[j + 1] == '\n' {
        return j;
      }
      j := j + 1;
    }
    return -1;
  }

  /** Appending [m, n) to pieces that cover [a, m) covers [a, n). */
  lemma TilesSnoc(ps: seq<Frag>, a: int, m: nat, n: nat)
    requires FragTiles(ps, a, m) && a <= m < n
    ensures FragTiles(ps + [Frag(m, n)], a, n)
  {
  }

  /** Piece f is a paragraph of ft, with ft starting at offset base. */
  predicate ParagraphPiece(ft: string, base: int, f: Frag) {
    Paragraph(ft, f.start - base, f.end - base)
  }

  /** Piece f is a separator-free rest of ft, with ft starting at offset base. */
  predicate RestPiece(ft: string, base: int, f: Frag) {
    Rest(ft, f.start - base, f.end - base)
  }

  /** The paragraph found from pos, appended to paragraph pieces. */
  lemma ParagraphSnoc(ps: seq<Frag>, ft: string, base: nat, pos: nat, idx: nat, ps': seq<Frag>)
    requires forall k :: 0 <= k < |ps| ==> ParagraphPiece(ft, base, ps[k])
    requires pos <= idx && IsSep(ft, idx) && forall j :: pos <= j < idx ==> !IsSep(ft, j)
    requires ps' == ps + [Frag(base + pos, base + idx + 2)]
    ensures forall k :: 0 <= k < |ps'| ==> ParagraphPiece(ft, base, ps'[k])
  {
    assert ParagraphPiece(ft, base, Frag(base + pos, base + idx + 2));
  }

  /**
   * The pieces splitByParagraph produces from pos on, for ft starting at
   * offset base: one per separator, ending after it, then the rest when it
   * is not empty.
   */
  function ParagraphsAt(ft: string, base: nat, pos: nat): seq<Frag>
    requires pos <= |ft|
    decreases |ft| - pos
  {
    var idx := FirstSep(ft, pos);
    if idx < 0 then
      (if pos < |ft| then [Frag(base + pos, base + |ft|)] else [])
    else
      [Frag(base + pos, base + idx + 2)] + ParagraphsAt(ft, base, idx + 2)
  }

  /** The paragraph pieces from pos on lie inside [base + pos, base + |ft|). */
  lemma {:induction false} ParagraphsWithin(ft: string, base: nat, pos: nat)
    requires pos <= |ft|
    ensures Within(ParagraphsAt(ft, base, pos), base + pos, base + |ft|)
    decreases |ft| - pos
  {
    var idx := FirstSep(ft, pos);
    if idx >= 0 {
      ParagraphsWithin(ft, base, idx + 2);
    }
  }

  /** A separator at idx adds the piece up to its end and moves on past it. */
  lemma ParagraphsNext(ft: string, base: nat, pos: nat, idx: int)
    requires pos <= |ft| && idx == FirstSep(ft, pos) && idx >= 0
    ensures ParagraphsAt(ft, base, pos) == [Frag(base + pos, base + idx + 2)] + ParagraphsAt(ft, base, idx + 2)
  {
  }

  /** Dropping the last piece of a cover of [a, b) leaves a cover of [a, last piece's start). */
  lemma FragTilesInit(ps: seq<Frag>, a: int, b: int)
    requires FragTiles(ps, a, b) && ps != []
    ensures FragTiles(ps[..|ps| - 1], a, ps[|ps| - 1].start)
  {
    var init := ps[..|ps| - 1];
    assert Proper(ps) && Ordered(ps);
    forall k | 0 <= k < |init|
      ensures init[k].end <= ps[|ps| - 1].start
    {
      OrderedMonotone(ps, k, |ps| - 2);
    }
    if init != [] {
      assert init[|init| - 1].end == ps[|ps| - 1].start;
    }
  }

  /**
   * Pieces that cover [base, base + pos) and each end right after a
   * separator are the first pieces of the paragraph split: the split from
   * pos on completes them.
   */
  lemma {:induction false} ParagraphsPrefix(ft: string, base: nat, ps: seq<Frag>, pos: nat)
    requires pos <= |ft| && FragTiles(ps, base, base + pos)
    requires forall k :: 0 <= k < |ps| ==> ParagraphPiece(ft, base, ps[k])
    ensures ps + ParagraphsAt(ft, base, pos) == ParagraphsAt(ft, base, 0)
    decreases |ps|
  {
    if ps == [] {
      assert pos == 0;
    } else {
      var init := ps[..|ps| - 1];
      var f := ps[|ps| - 1];
      PrefixInit(ft, base, ps, pos);
      var p0: nat := f.start - base;
      ParagraphNext(ft, base, f, p0, pos);
      ParagraphsPrefix(ft, base, init, p0);
      calc {
        ps + ParagraphsAt(ft, base, pos);
        { assert ps == init + [f]; }
        init + ([f] + ParagraphsAt(ft, base, pos));
        init + ParagraphsAt(ft, base, p0);
      }
    }
  }

  /** Dropping the last piece of a paragraph prefix leaves a paragraph prefix. */
  lemma PrefixInit(ft: string, base: nat, ps: seq<Frag>, pos: nat)
    requires ps != [] && FragTiles(ps, base, base + pos)
    requires forall k :: 0 <= k < |ps| ==> ParagraphPiece(ft, base, ps[k])
    ensures base <= ps[|ps| - 1].start && ps[|ps| - 1].end == base + pos
    ensures ParagraphPiece(ft, base, ps[|ps| - 1])
    ensures FragTiles(ps[..|ps| - 1], base, ps[|ps| - 1].start)
  {
    FragTilesInit(ps, base, base + pos);
  }

  /** A paragraph piece [p0, pos) is the first piece of the split from p0. */
  lemma ParagraphNext(ft: string, base: nat, f: Frag, p0: nat, pos: nat)
    requires pos <= |ft| && f == Frag(base + p0, base + pos) && ParagraphPiece(ft, base, f)
    ensures ParagraphsAt(ft, base, p0) == [f] + ParagraphsAt(ft, base, pos)
  {
    FirstSepAt(ft, p0, pos);
    ParagraphsNext(ft, base, p0, pos - 2);
  }

  /** The loop of splitByParagraph: one piece per separator, up to pos after the last one. */
  method ParagraphCuts(frag: Frag, fragText: string) returns (ps: seq<Frag>, pos: nat)
    requires |fragText| == Len(frag)
    ensures pos <= |fragText| && FragTiles(ps, frag.start, frag.start + pos)
    ensures forall k :: 0 <= k < |ps| ==> ParagraphPiece(fragText, frag.start, ps[k])
    ensures forall j :: pos <= j ==> !IsSep(fragText, j)
    ensures FirstSep(fragText, pos) == -1
  {
    ps := [];
    pos := 0;
    while true
      invariant pos <= |fragText|
      invariant FragTiles(ps, frag.start, frag.start + pos)
      invariant forall k :: 0 <= k < |ps| ==> ParagraphPiece(fragText, frag.start, ps[k])
      decreases |fragText| - pos
    {
      var idx := IndexSep(fragText, pos);
      if idx < 0 {
        return;
      }
      var end := idx + 2;
      TilesSnoc(ps, frag.start, frag.start + pos, frag.start + end);
      ParagraphSnoc(ps, fragText, frag.start, pos, idx, ps + [Frag(frag.start + pos, frag.start + end)]);
      ps := ps + [Frag(frag.start + pos, frag.start + end)];
      pos := end;
    }
  }

  /** The separator-free rest after the last paragraph, appended to the paragraph pieces. */
  lemma RestSnoc(cuts: seq<Frag>, fragText: string, frag: Frag, pos: nat, ps: seq<Frag>)
    requires forall k :: 0 <= k < |cuts| ==> ParagraphPiece(fragText, frag.start, cuts[k])
    requires forall j :: pos <= j ==> !IsSep(fragText, j)
    requires ps == cuts + [Frag(frag.start + pos, frag.end)]
    ensures forall k :: 0 <= k < |ps| - 1 ==> ParagraphPiece(fragText, frag.start, ps[k])
    ensures RestPiece(fragText, frag.start, ps[|ps| - 1])
  {
    assert forall k :: 0 <= k < |cuts| ==> ps[k] == cuts[k];
  }

  /**
   * splitByParagraph: cuts after each "\n\n", keeping the separator with
   * the piece before it; the rest after the last separator is a piece too.
   */
  method SplitByParagraph(frag: Frag, fragText: string) returns (ps: seq<Frag>)
    requires |fragText| == Len(frag)
    ensures ps == ParagraphsAt(fragText, frag.start, 0)
    ensures FragTiles(ps, frag.start, frag.end)
    ensures forall k :: 0 <= k < |ps| - 1 ==> ParagraphPiece(fragText, frag.start, ps[k])
    ensures ps != [] ==>
      ParagraphPiece(fragText, frag.start, ps[|ps| - 1]) || RestPiece(fragText, frag.start, ps[|ps| - 1])
  {
    var cuts, pos := ParagraphCuts(frag, fragText);
    assert ParagraphsAt(fragText, frag.start, 0)
           == cuts + if pos < |fragText| then [Frag(frag.start + pos, frag.end)] else [] by {
      ParagraphsPrefix(fragText, frag.start, cuts, pos);
      ParagraphsRest(fragText, frag.start, pos);
    }
    if pos < |fragText| {
      ps := cuts + [Frag(frag.start + pos, frag.end)];
      TilesSnoc(cuts, frag.start, frag.start + pos, frag.end);
      RestSnoc(cuts, fragText, frag, pos, ps);
    } else {
      ps := cuts;
    }
  }

  // ---------------------------------------------------------------------
  // Tokens and runes
  // ---------------------------------------------------------------------

  /** The tokens' spans, shifted by base. */
  function Shifted(base: nat, tokens: seq<T.Token>): (r: seq<Frag>)
    ensures |r| == |tokens|
    ensures forall k :: 0 <= k < |r| ==> r[k] == Frag(base + tokens[k].start, base + tokens[k].end)
  {
    if tokens == [] then []
    else
      var t := tokens[|tokens| - 1];
      Shifted(base, tokens[..|tokens| - 1]) + [Frag(base + t.start, base + t.end)]
  }

  /** One piece per token, shifted to the fragment's offset; the fragment itself for fewer than two tokens. */
  function TokenPieces(frag: Frag, tokens: seq<T.Token>): seq<Frag>
    requires frag.start <= frag.end
  {
    if |tokens| <= 1 then [frag] else Shifted(frag.start, tokens)
  }

  /**
   * splitByTokens: one piece per token, shifted to the fragment's offset;
   * the whole fragment when there are fewer than two tokens.
   */
  method SplitByTokens(frag: Frag, tokens: seq<T.Token>, ghost ft: string) returns (ps: seq<Frag>)
    requires |ft| == Len(frag)
    ensures ps == TokenPieces(frag, tokens)
    ensures |tokens| <= 1 ==> ps == [frag]
    ensures |tokens| > 1 ==> |ps| == |tokens|
    ensures T.Tiles(tokens, ft, |ft|) && ft != [] ==> FragTiles(ps, frag.start, frag.end)
  {
    if |tokens| <= 1 {
      return [frag];
    }
    ps := [];
    var i := 0;
    while i < |tokens|
      invariant 0 <= i <= |tokens| && |ps| == i
      invariant forall k :: 0 <= k < i ==> ps[k] == Frag(frag.start + tokens[k].start, frag.start + tokens[k].end)
    {
      ps := ps + [Frag(frag.start + tokens[i].start, frag.start + tokens[i].end)];
      i := i + 1;
    }
  }

  /** All pieces but the last have exactly size runes, and none has more. */
  predicate Sized(ps: seq<Frag>, size: int) {
    Small(ps, size) && forall k :: 0 <= k < |ps| - 1 ==> Len(ps[k]) == size
  }

  /** Appending a piece to pieces whose last one is full. */
  lemma SizedSnoc(ps: seq<Frag>, size: int, f: Frag, ps': seq<Frag>)
    requires Sized(ps, size) && (ps != [] ==> Len(ps[|ps| - 1]) == size) && Len(f) <= size
    requires ps' == ps + [f]
    ensures Sized(ps', size)
  {
    assert forall k :: 0 <= k < |ps| ==> ps'[k] == ps[k];
  }

  /** The pieces of size runes splitByRune appends from runePos on, while there are fewer than MaxChunks. */
  function RunesFrom(frag: Frag, size: int, runePos: nat, ps: seq<Frag>): seq<Frag>
    requires frag.start <= frag.end && size > 0 && runePos <= Len(frag)
    decreases Len(frag) - runePos
  {
    if runePos < Len(frag) && |ps| < MaxChunks then
      var endRune: nat := if runePos + size <= Len(frag) then runePos + size else Len(frag);
      RunesFrom(frag, size, endRune, ps + [Frag(frag.start + runePos, frag.start + endRune)])
    else ps
  }

  /** The state of splitByRune's loop after the pieces ps, up to rune runePos. */
  predicate Cutting(frag: Frag, size: int, runePos: nat, ps: seq<Frag>)
    requires frag.start <= frag.end && size > 0
  {
    runePos <= Len(frag) && |ps| <= MaxChunks
    && FragTiles(ps, frag.start, frag.start + runePos) && Sized(ps, size)
    && (ps != [] ==> Len(ps[|ps| - 1]) == size || runePos == Len(frag))
    && RunesFrom(frag, size, runePos, ps) == RunesFrom(frag, size, 0, [])
  }

  /**
   * splitByRune: pieces of exactly size runes from the fragment's start,
   * the last one shorter, at most MaxChunks of them.
   */
  method SplitByRune(frag: Frag, size: int) returns (ps: seq<Frag>)
    requires frag.start <= frag.end && size > 0
    ensures ps == RunesFrom(frag, size, 0, [])
    ensures Within(ps, frag.start, frag.end) && Adjacent(ps) && Sized(ps, size) && |ps| <= MaxChunks
    ensures ps != [] ==> ps[0].start == frag.start
    ensures |ps| < MaxChunks ==> FragTiles(ps, frag.start, frag.end)
    ensures frag.start < frag.end ==> ps != []
  {
    var totalRunes := Len(frag);
    ps := [];
    var runePos := 0;
    while runePos < totalRunes && |ps| < MaxChunks
      invariant Cutting(frag, size, runePos, ps)
      decreases totalRunes - runePos
    {
      var endRune := Min(runePos + size, totalRunes);
      var f := Frag(frag.start + runePos, frag.start + endRune);
      CuttingNext(frag, size, runePos, ps, endRune, ps + [f]);
      ps := ps + [f];
      runePos := endRune;
    }
    CuttingDone(frag, size, runePos, ps);
  }

  /** One iteration of splitByRune keeps the loop state. */
  lemma CuttingNext(frag: Frag, size: int, runePos: nat, ps: seq<Frag>, endRune: nat, ps': seq<Frag>)
    requires frag.start <= frag.end && size > 0 && Cutting(frag, size, runePos, ps)
    requires runePos < Len(frag) && |ps| < MaxChunks && endRune == Min(runePos + size, Len(frag))
    requires ps' == ps + [Frag(frag.start + runePos, frag.start + endRune)]
    ensures Cutting(frag, size, endRune, ps')
  {
    RuneStep(ps, frag, size, runePos, endRune, ps');
    RunesNext(frag, size, runePos, ps);
  }

  /** When splitByRune's loop stops, its result is complete. */
  lemma CuttingDone(frag: Frag, size: int, runePos: nat, ps: seq<Frag>)
    requires frag.start <= frag.end && size > 0 && Cutting(frag, size, runePos, ps)
    requires !(runePos < Len(frag) && |ps| < MaxChunks)
    ensures ps == RunesFrom(frag, size, 0, [])
    ensures Within(ps, frag.start, frag.end) && Adjacent(ps) && Sized(ps, size) && |ps| <= MaxChunks
    ensures ps != [] ==> ps[0].start == frag.start
    ensures |ps| < MaxChunks ==> FragTiles(ps, frag.start, frag.end)
    ensures frag.start < frag.end ==> ps != []
  {
  }

  /** One iteration of splitByRune is one step of RunesFrom. */
  lemma RunesNext(frag: Frag, size: int, runePos: nat, ps: seq<Frag>)
    requires frag.start <= frag.end && size > 0 && runePos < Len(frag) && |ps| < MaxChunks
    ensures RunesFrom(frag, size, runePos, ps)
            == RunesFrom(frag, size, Min(runePos + size, Len(frag)),
                         ps + [Frag(frag.start + runePos, frag.start + Min(runePos + size, Len(frag)))])
  {
  }

  /** One iteration of splitByRune keeps its loop invariant. */
  lemma RuneStep(ps: seq<Frag>, frag: Frag, size: int, runePos: nat, endRune: nat, ps': seq<Frag>)
    requires size > 0 && runePos < Len(frag) && endRune == Min(runePos + size, Len(frag))
    requires FragTiles(ps, frag.start, frag.start + runePos) && Sized(ps, size)
    requires ps != [] ==> Len(ps[|ps| - 1]) == size
    requires ps' == ps + [Frag(frag.start + runePos, frag.start + endRune)]
    ensures FragTiles(ps', frag.start, frag.start + endRune) && Sized(ps', size)
    ensures Len(ps'[|ps'| - 1]) == size || endRune == Len(frag)
  {
    TilesSnoc(ps, frag.start, frag.start + runePos, frag.start + endRune);
    SizedSnoc(ps, size, ps'[|ps|], ps');
  }

  // ---------------------------------------------------------------------
  // The recursive split
  // ---------------------------------------------------------------------

  /** The parts of frag at a level: its paragraphs (0), sentences (1) or words (2). */
  function PartsAt(text: string, frag: Frag, level: nat): seq<Frag>
    requires frag.start <= frag.end <= |text| && level < 3
  {
    var ft := text[frag.start..frag.end];
    if level == 0 then ParagraphsAt(ft, frag.start, 0)
    else if level == 1 then TokenPieces(frag, Se.SentencesOf(ft))
    else TokenPieces(frag, Sc.WordTokensOf(ft))
  }

  /** The parts of a fragment lie inside it. */
  lemma PartsWithin(text: string, frag: Frag, level: nat)
    requires frag.start <= frag.end <= |text| && level < 3
    ensures Within(PartsAt(text, frag, level), frag.start, frag.end)
  {
    var ft := text[frag.start..frag.end];
    if level == 0 {
      ParagraphsWithin(ft, frag.start, 0);
    } else if level == 1 {
      Se.SentencesTile(ft);
    } else if level == 2 {
      Sc.WordTokensShape(ft);
    }
  }

  /**
   * What splitFragment returns: frag itself when it fits, runes at the last
   * level, the next level down when this level gives a single part, and
   * otherwise every part, oversized ones split one level down.
   */
  function SplitOf(text: string, frag: Frag, size: int, level: nat): seq<Frag>
    requires frag.start <= frag.end <= |text| && size > 0 && level <= 3
    decreases 3 - level, 1, 0
  {
    if Len(frag) <= size then [frag]
    else if level == 3 then RunesFrom(frag, size, 0, [])
    else
      var parts := PartsAt(text, frag, level);
      PartsWithin(text, frag, level);
      if |parts| <= 1 then SplitOf(text, frag, size, level + 1)
      else SplitAll(text, parts, size, level)
  }

  /** The loop of splitFragment over parts: each one kept when it fits, else split one level down. */
  function SplitAll(text: string, parts: seq<Frag>, size: int, level: nat): seq<Frag>
    requires Within(parts, 0, |text|) && size > 0 && level < 3
    decreases 3 - level, 0, |parts|
  {
    if parts == [] then []
    else
      var p := parts[|parts| - 1];
      SplitAll(text, parts[..|parts| - 1], size, level)
      + (if Len(p) <= size then [p] else SplitOf(text, p, size, level + 1))
  }

  /** One more part adds its own pieces to those of the parts before it. */
  lemma SplitAllSnoc(text: string, parts: seq<Frag>, size: int, level: nat, i: nat)
    requires Within(parts, 0, |text|) && size > 0 && level < 3 && i < |parts|
    ensures Within(parts[..i], 0, |text|) && Within(parts[..i + 1], 0, |text|)
    ensures SplitAll(text, parts[..i + 1], size, level)
            == SplitAll(text, parts[..i], size, level)
               + (if Len(parts[i]) <= size then [parts[i]] else SplitOf(text, parts[i], size, level + 1))
  {
    assert parts[..i + 1][..i] == parts[..i];
  }

  /** Pieces of [x, m) followed by pieces of [m, y) are ordered pieces of [x, y). */
  lemma Concatenated(a: seq<Frag>, b: seq<Frag>, x: int, m: int, y: int, size: int)
    requires x <= m <= y && Within(a, x, m) && Ordered(a) && Small(a, size)
    requires Within(b, m, y) && Ordered(b) && Small(b, size)
    ensures Within(a + b, x, y) && Ordered(a + b) && Small(a + b, size)
  {
    var ab := a + b;
    assert forall k :: 0 <= k < |a| ==> ab[k] == a[k];
    assert forall k :: |a| <= k < |ab| ==> ab[k] == b[k - |a|];
    forall k | 0 <= k < |ab| - 1
      ensures ab[k].end <= ab[k + 1].start
    {
      if k + 1 < |a| {
        assert ab[k] == a[k] && ab[k + 1] == a[k + 1];
      } else if k + 1 == |a| {
        assert ab[k] == a[k] && ab[k + 1] == b[0];
      } else {
        assert ab[k] == b[k - |a|] && ab[k + 1] == b[k + 1 - |a|];
      }
    }
  }

  /** A cover of [x, m) followed by a cover of [m, y) covers [x, y). */
  lemma ConcatenatedTiles(a: seq<Frag>, b: seq<Frag>, x: int, m: int, y: int)
    requires FragTiles(a, x, m) && FragTiles(b, m, y)
    ensures FragTiles(a + b, x, y)
  {
    var ab := a + b;
    if a == [] {
      assert ab == b;
    } else if b == [] {
      assert ab == a;
    } else {
      forall k | 0 <= k < |ab| - 1
        ensures ab[k].end == ab[k + 1].start
      {
        if k + 1 < |a| {
          assert ab[k] == a[k] && ab[k + 1] == a[k + 1];
        } else if k + 1 == |a| {
          assert ab[k] == a[k] && ab[k + 1] == b[0];
        } else {
          assert ab[k] == b[k - |a|] && ab[k + 1] == b[k + 1 - |a|];
        }
      }
      assert ab[|ab| - 1] == b[|b| - 1];
    }
  }

  /** The switch of splitFragment on the level: paragraphs, sentences or words of the fragment's text. */
  method LevelParts(text: string, frag: Frag, fragText: string, level: nat) returns (parts: seq<Frag>)
    requires frag.start < frag.end <= |text| && fragText == text[frag.start..frag.end] && level < 3
    ensures parts == PartsAt(text, frag, level)
    ensures FragTiles(parts, frag.start, frag.end)
  {
    if level == 0 {
      parts := SplitByParagraph(frag, fragText);
    } else if level == 1 {
      var r := Tokenizer.SentenceTokens(fragText);
      parts := SplitByTokens(frag, if r.Some? then r.value else [], fragText);
    } else {
      var r := Tokenizer.WordTokens(fragText);
      parts := SplitByTokens(frag, if r.Some? then r.value else [], fragText);
    }
  }

  /**
   * splitFragment: a fragment of at most size runes is returned as is;
   * otherwise it is split at this level (paragraph 0, sentence 1, word 2,
   * rune 3), going one level down when that yields a single piece, and
   * oversized pieces are split again one level down. Pieces are ordered,
   * inside the fragment and at most size runes; below MaxChunks pieces they
   * cover the fragment.
   */
  method SplitFragment(text: string, frag: Frag, size: int, level: nat) returns (ps: seq<Frag>)
    requires frag.start <= frag.end <= |text| && size > 0 && level <= 3
    ensures ps == SplitOf(text, frag, size, level)
    ensures Len(frag) <= size ==> ps == [frag]
    ensures ps != [] && Within(ps, frag.start, frag.end) && Ordered(ps) && Small(ps, size)
    ensures |ps| < MaxChunks && frag.start < frag.end ==> FragTiles(ps, frag.start, frag.end)
    decreases 3 - level, 2
  {
    var fragText := text[frag.start..frag.end];
    if |fragText| <= size {
      return [frag];
    }
    var parts;
    if level < 3 {
      parts := LevelParts(text, frag, fragText, level);
    } else {
      ps := SplitByRune(frag, size);
      assert Ordered(ps) && Small(ps, size);
      return;
    }
    if |parts| <= 1 {
      ps := SplitFragment(text, frag, size, level + 1);
      assert ps == SplitOf(text, frag, size, level) by {
        SplitOfParts(text, frag, size, level, parts);
      }
      return;
    }
    ps := SplitParts(text, frag, parts, size, level);
    assert ps == SplitOf(text, frag, size, level) by {
      SplitOfParts(text, frag, size, level, parts);
    }
  }

  /** Above size and above the rune level, a fragment is split through its parts at that level. */
  lemma SplitOfParts(text: string, frag: Frag, size: int, level: nat, parts: seq<Frag>)
    requires frag.start <= frag.end <= |text| && size > 0 && level < 3 && Len(frag) > size
    requires parts == PartsAt(text, frag, level)
    ensures Within(parts, 0, |text|)
    ensures SplitOf(text, frag, size, level)
            == if |parts| <= 1 then SplitOf(text, frag, size, level + 1) else SplitAll(text, parts, size, level)
  {
    PartsWithin(text, frag, level);
  }

  /** One part's pieces, appended to those before it, keep the loop invariant of splitFragment. */
  lemma PartStep(text: string, frag: Frag, parts: seq<Frag>, size: int, level: nat, i: nat, ps: seq<Frag>, sub: seq<Frag>)
    requires frag.start <= frag.end <= |text| && size > 0 && level < 3
    requires FragTiles(parts, frag.start, frag.end) && i < |parts|
    requires Within(parts[..i], 0, |text|) && ps == SplitAll(text, parts[..i], size, level)
    requires Within(ps, frag.start, parts[i].start) && Ordered(ps) && Small(ps, size)
    requires |ps| < MaxChunks ==> FragTiles(ps, frag.start, parts[i].start)
    requires Within(sub, parts[i].start, parts[i].end) && Ordered(sub) && Small(sub, size)
    requires |sub| < MaxChunks ==> FragTiles(sub, parts[i].start, parts[i].end)
    requires sub == if Len(parts[i]) <= size then [parts[i]] else SplitOf(text, parts[i], size, level + 1)
    ensures Within(parts[..i + 1], 0, |text|) && ps + sub == SplitAll(text, parts[..i + 1], size, level)
    ensures Within(ps + sub, frag.start, parts[i].end) && Ordered(ps + sub) && Small(ps + sub, size)
    ensures |ps + sub| < MaxChunks ==> FragTiles(ps + sub, frag.start, parts[i].end)
  {
    SplitAllSnoc(text, parts, size, level, i);
    Concatenated(ps, sub, frag.start, parts[i].start, parts[i].end, size);
    if |ps + sub| < MaxChunks {
      ConcatenatedTiles(ps, sub, frag.start, parts[i].start, parts[i].end);
    }
  }

  /** One part in the loop of splitFragment: kept when it fits, else split one level down. */
  method SplitPart(text: string, p: Frag, size: int, level: nat) returns (sub: seq<Frag>)
    requires p.start < p.end <= |text| && size > 0 && level < 3
    ensures sub == if Len(p) <= size then [p] else SplitOf(text, p, size, level + 1)
    ensures Within(sub, p.start, p.end) && Ordered(sub) && Small(sub, size)
    ensures |sub| < MaxChunks ==> FragTiles(sub, p.start, p.end)
    decreases 3 - level, 0
  {
    if Len(p) <= size {
      sub := [p];
    } else {
      sub := SplitFragment(text, p, size, level + 1);
    }
  }

  /** The loop of splitFragment over the parts of one level. */
  method SplitParts(text: string, frag: Frag, parts: seq<Frag>, size: int, level: nat) returns (ps: seq<Frag>)
    requires frag.start <= frag.end <= |text| && size > 0 && level < 3
    requires FragTiles(parts, frag.start, frag.end) && parts != []
    ensures ps == SplitAll(text, parts, size, level)
    ensures ps != [] && Within(ps, frag.start, frag.end) && Ordered(ps) && Small(ps, size)
    ensures |ps| < MaxChunks ==> FragTiles(ps, frag.start, frag.end)
    decreases 3 - level, 1
  {
    ps := [];
    var i := 0;
    ghost var cur := frag.start;
    assert SplitAll(text, parts[..0], size, level) == [] by {
      assert parts[..0] == [];
    }
    while i < |parts|
      invariant 0 <= i <= |parts| && cur == (if i == 0 then frag.start else parts[i - 1].end)
      invariant Within(ps, frag.start, cur) && Ordered(ps) && Small(ps, size) && (i > 0 ==> ps != [])
      invariant |ps| < MaxChunks ==> FragTiles(ps, frag.start, cur)
      invariant Within(parts, 0, |text|) && Within(parts[..i], 0, |text|)
      invariant ps == SplitAll(text, parts[..i], size, level)
    {
      var p := parts[i];
      assert cur == p.start;
      var sub := SplitPart(text, p, size, level);
      PartStep(text, frag, parts, size, level, i, ps, sub);
      ps := ps + sub;
      cur := p.end;
      i := i + 1;
    }
    assert parts[..i] == parts;
  }

  // ---------------------------------------------------------------------
  // Merging
  // ---------------------------------------------------------------------

  /** The runes of fragments a up to b, as mergeFragments counts them. */
  function FragSum(frags: seq<Frag>, a: nat, b: nat): int
    requires a <= b <= |frags|
    decreases b
  {
    if a == b then 0 else FragSum(frags, a, b - 1) + Len(frags[b - 1])
  }

  /** Fragments with start <= end, as slicing the text demands. */
  predicate Proper(frags: seq<Frag>) {
    forall k :: 0 <= k < |frags| ==> frags[k].start <= frags[k].end
  }

  lemma {:induction false} FragSumNonNegative(frags: seq<Frag>, a: nat, b: nat)
    requires Proper(frags) && a <= b <= |frags|
    ensures FragSum(frags, a, b) >= 0
    decreases b
  {
    if a < b {
      FragSumNonNegative(frags, a, b - 1);
    }
  }

  lemma {:induction false} FragSumSplit(frags: seq<Frag>, a: nat, m: nat, b: nat)
    requires a <= m <= b <= |frags|
    ensures FragSum(frags, a, b) == FragSum(frags, a, m) + FragSum(frags, m, b)
    decreases b
  {
    if m < b {
      FragSumSplit(frags, a, m, b - 1);
    }
  }

  /** Cut points: 0 first, strictly increasing, within n. */
  predicate Cuts(cuts: seq<nat>, n: nat) {
    |cuts| >= 1 && cuts[0] == 0
    && (forall k :: 0 <= k < |cuts| - 1 ==> cuts[k] < cuts[k + 1])
    && (forall k :: 0 <= k < |cuts| ==> cuts[k] <= n)
  }

  /** Merged piece k runs from fragment cuts[k]'s start to fragment cuts[k + 1] - 1's end. */
  predicate Joined(merged: seq<Frag>, frags: seq<Frag>, cuts: seq<nat>)
    requires Cuts(cuts, |frags|)
  {
    |merged| == |cuts| - 1
    && forall k {:trigger merged[k]} :: 0 <= k < |merged| ==>
         0 <= cuts[k] < cuts[k + 1] <= |frags|
         && merged[k] == Frag(frags[cuts[k]].start, frags[cuts[k + 1] - 1].end)
  }

  /** Every merged piece but the first has at least MinChunkRunes runes. */
  predicate Heavy(frags: seq<Frag>, cuts: seq<nat>)
    requires Cuts(cuts, |frags|)
  {
    forall k :: 1 <= k < |cuts| - 1 ==> FragSum(frags, cuts[k], cuts[k + 1]) >= MinChunkRunes
  }

  /** No merged piece could have taken the fragment after it without passing size. */
  predicate Saturated(frags: seq<Frag>, cuts: seq<nat>, size: int)
    requires Cuts(cuts, |frags|)
  {
    forall k :: 0 <= k < |cuts| - 1 && cuts[k + 1] < |frags| ==>
      FragSum(frags, cuts[k], cuts[k + 1]) + Len(frags[cuts[k + 1]]) > size
  }

  /** What mergeFragments promises, with the cut points behind the merged pieces. */
  predicate MergedBy(merged: seq<Frag>, frags: seq<Frag>, cuts: seq<nat>, size: int) {
    Cuts(cuts, |frags|) && Joined(merged, frags, cuts) && Heavy(frags, cuts) && Saturated(frags, cuts, size)
  }

  /** Group [a, b) as the loop gathers it: a single fragment, or fragments whose runes fit size. */
  predicate Fits(frags: seq<Frag>, a: nat, b: nat, size: int)
    requires a < b <= |frags|
  {
    b == a + 1 || FragSum(frags, a, b) <= size
  }

  /** Group [a, b) is closed: it reaches the end, or its next fragment would pass size. */
  predicate Full(frags: seq<Frag>, a: nat, b: nat, size: int)
    requires a <= b <= |frags|
  {
    b == |frags| || FragSum(frags, a, b) + Len(frags[b]) > size
  }

  /** Boundaries of groups the loop has closed: each group fits and is full. */
  predicate Closed(frags: seq<Frag>, groups: seq<nat>, size: int) {
    Cuts(groups, |frags|)
    && forall k :: 0 <= k < |groups| - 1 ==>
         Fits(frags, groups[k], groups[k + 1], size) && Full(frags, groups[k], groups[k + 1], size)
  }

  /** The groups of mergeFragments' loop, from the first fragment to the last. */
  predicate Greedy(frags: seq<Frag>, groups: seq<nat>, size: int) {
    Closed(frags, groups, size) && groups[|groups| - 1] == |frags|
  }

  /**
   * The starts of the first m groups that emit opens as new pieces: the
   * first group, and every group of at least MinChunkRunes runes; the
   * others are folded into the piece before them.
   */
  function Opened(frags: seq<Frag>, groups: seq<nat>, m: nat): seq<nat>
    requires Cuts(groups, |frags|) && m < |groups|
  {
    if m == 0 then []
    else
      Opened(frags, groups, m - 1)
      + (if m == 1 || FragSum(frags, groups[m - 1], groups[m]) >= MinChunkRunes then [groups[m - 1]] else [])
  }

  /** Opened only looks at the groups it counts: a longer list of boundaries gives the same starts. */
  lemma {:induction false} OpenedPrefix(frags: seq<Frag>, groups: seq<nat>, groups': seq<nat>, m: nat)
    requires Cuts(groups, |frags|) && Cuts(groups', |frags|) && m < |groups| <= |groups'|
    requires groups'[..|groups|] == groups
    ensures Opened(frags, groups', m) == Opened(frags, groups, m)
  {
    if m > 0 {
      assert groups'[m - 1] == groups[m - 1] && groups'[m] == groups[m];
      OpenedPrefix(frags, groups, groups', m - 1);
    }
  }

  /** Closing the current group [groups' last, i) adds one boundary and decides whether it opens a piece. */
  lemma CloseGroup(frags: seq<Frag>, groups: seq<nat>, size: int, i: nat, groups': seq<nat>)
    requires Closed(frags, groups, size) && groups[|groups| - 1] < i <= |frags|
    requires Fits(frags, groups[|groups| - 1], i, size) && Full(frags, groups[|groups| - 1], i, size)
    requires groups' == groups + [i]
    ensures Closed(frags, groups', size)
    ensures Opened(frags, groups', |groups|)
            == Opened(frags, groups, |groups| - 1)
               + (if |groups| == 1 || FragSum(frags, groups[|groups| - 1], i) >= MinChunkRunes
                  then [groups[|groups| - 1]] else [])
  {
    assert Closed(frags, groups', size) by {
      assert forall k :: 0 <= k < |groups| ==> groups'[k] == groups[k];
      assert groups'[|groups|] == i;
    }
    assert Opened(frags, groups', |groups| - 1) == Opened(frags, groups, |groups| - 1) by {
      assert groups'[..|groups|] == groups;
      OpenedPrefix(frags, groups, groups', |groups| - 1);
    }
    assert groups'[|groups| - 1] == groups[|groups| - 1] && groups'[|groups|] == i;
  }

  /** The group [a, i) with fragment i added: one more fragment's runes, and it fits when that sum does. */
  lemma GrowGroup(frags: seq<Frag>, a: nat, i: nat, size: int)
    requires a <= i < |frags|
    ensures FragSum(frags, a, i + 1) == FragSum(frags, a, i) + Len(frags[i])
    ensures a == i || FragSum(frags, a, i + 1) <= size ==> Fits(frags, a, i + 1, size)
  {
  }

  /** Two group ends from the same start that both fit and are full are equal. */
  lemma GreedyStep(frags: seq<Frag>, a: nat, b1: nat, b2: nat, size: int)
    requires Proper(frags) && a < b1 <= |frags| && a < b2 <= |frags|
    requires Fits(frags, a, b1, size) && Full(frags, a, b1, size)
    requires Fits(frags, a, b2, size) && Full(frags, a, b2, size)
    ensures b1 == b2
  {
    if b1 < b2 {
      LaterEndPasses(frags, a, b1, b2, size);
      assert false;
    } else if b2 < b1 {
      LaterEndPasses(frags, a, b2, b1, size);
      assert false;
    }
  }

  /** A group reaching past a full group's end has more than size runes. */
  lemma LaterEndPasses(frags: seq<Frag>, a: nat, b: nat, c: nat, size: int)
    requires Proper(frags) && a < b < c <= |frags| && Full(frags, a, b, size)
    ensures c != a + 1 && FragSum(frags, a, c) > size
  {
    FragSumSplit(frags, a, b + 1, c);
    FragSumNonNegative(frags, b + 1, c);
  }

  /** The greedy groups of a list of fragments are unique. */
  lemma GreedyUnique(frags: seq<Frag>, g1: seq<nat>, g2: seq<nat>, size: int)
    requires Proper(frags) && Greedy(frags, g1, size) && Greedy(frags, g2, size)
    ensures g1 == g2
  {
    GreedyAgree(frags, g1, g2, size, if |g1| <= |g2| then |g1| else |g2|);
    if |g1| < |g2| {
      NoBoundaryPast(frags, g1, g2, size);
      assert false;
    } else if |g2| < |g1| {
      NoBoundaryPast(frags, g2, g1, size);
      assert false;
    }
  }

  /** The greedy boundaries of two runs agree on their common length. */
  lemma {:induction false} GreedyAgree(frags: seq<Frag>, g1: seq<nat>, g2: seq<nat>, size: int, m: nat)
    requires Proper(frags) && Greedy(frags, g1, size) && Greedy(frags, g2, size) && m <= |g1| && m <= |g2|
    ensures forall k :: 0 <= k < m ==> g1[k] == g2[k]
  {
    if m > 1 {
      GreedyAgree(frags, g1, g2, size, m - 1);
      GreedyStep(frags, g1[m - 2], g1[m - 1], g2[m - 1], size);
    }
  }

  /** A greedy run that agrees with a longer one has already reached the end: no shorter run exists. */
  lemma NoBoundaryPast(frags: seq<Frag>, g1: seq<nat>, g2: seq<nat>, size: int)
    requires Greedy(frags, g1, size) && Cuts(g2, |frags|) && |g1| < |g2|
    requires forall k :: 0 <= k < |g1| ==> g1[k] == g2[k]
    ensures g2[|g1| - 1] == |frags| && g2[|g1| - 1] < g2[|g1|] <= |frags|
  {
  }

  /**
   * Two fragments of 300 runes with size 512 are never merged into one
   * piece: the first group closes before the second fragment, and both
   * groups open pieces.
   */
  lemma TwoFullFragments(frags: seq<Frag>, groups: seq<nat>)
    requires frags == [Frag(0, 300), Frag(300, 600)] && Greedy(frags, groups, 512)
    ensures groups == [0, 1, 2]
    ensures Opened(frags, groups, |groups| - 1) + [|frags|] == [0, 1, 2]
  {
    assert FragSum(frags, 0, 1) == 300 && FragSum(frags, 1, 2) == 300;
    assert Greedy(frags, [0, 1, 2], 512);
    GreedyUnique(frags, groups, [0, 1, 2], 512);
    assert Opened(frags, groups, 1) == [0];
  }

  /** Over fragments of at most size runes, every greedy group has at most size runes. */
  lemma GroupsWithinSize(frags: seq<Frag>, groups: seq<nat>, size: int)
    requires Small(frags, size) && Greedy(frags, groups, size)
    ensures forall k :: 0 <= k < |groups| - 1 ==> FragSum(frags, groups[k], groups[k + 1]) <= size
  {
    forall k | 0 <= k < |groups| - 1
      ensures FragSum(frags, groups[k], groups[k + 1]) <= size
    {
      assert Fits(frags, groups[k], groups[k + 1], size);
    }
  }

  /** Appending a cut keeps the earlier pieces' properties; the new piece brings its own. */
  lemma AppendCut(frags: seq<Frag>, cuts: seq<nat>, size: int, i: nat, cuts': seq<nat>)
    requires Cuts(cuts, |frags|) && Heavy(frags, cuts) && Saturated(frags, cuts, size)
    requires cuts[|cuts| - 1] < i <= |frags| && cuts' == cuts + [i]
    requires FragSum(frags, cuts[|cuts| - 1], i) >= MinChunkRunes || |cuts| == 1
    requires i < |frags| ==> FragSum(frags, cuts[|cuts| - 1], i) + Len(frags[i]) > size
    ensures Cuts(cuts', |frags|) && Heavy(frags, cuts') && Saturated(frags, cuts', size)
  {
    assert forall k :: 0 <= k < |cuts| ==> cuts'[k] == cuts[k];
    assert Cuts(cuts', |frags|);
    assert Heavy(frags, cuts') by {
      forall k | 1 <= k < |cuts'| - 1
        ensures FragSum(frags, cuts'[k], cuts'[k + 1]) >= MinChunkRunes
      {
        if k < |cuts| - 1 {
          assert cuts'[k] == cuts[k] && cuts'[k + 1] == cuts[k + 1];
        }
      }
    }
    assert Saturated(frags, cuts', size) by {
      forall k | 0 <= k < |cuts'| - 1 && cuts'[k + 1] < |frags|
        ensures FragSum(frags, cuts'[k], cuts'[k + 1]) + Len(frags[cuts'[k + 1]]) > size
      {
        if k < |cuts| - 1 {
          assert cuts'[k] == cuts[k] && cuts'[k + 1] == cuts[k + 1];
        }
      }
    }
  }

  /** emit, appending the current group as a new piece. */
  lemma EmitAppend(merged: seq<Frag>, frags: seq<Frag>, cuts: seq<nat>, size: int, current: Frag, i: nat,
                   merged': seq<Frag>, cuts': seq<nat>)
    requires MergedBy(merged, frags, cuts, size) && cuts[|cuts| - 1] < i <= |frags|
    requires current == Frag(frags[cuts[|cuts| - 1]].start, frags[i - 1].end)
    requires FragSum(frags, cuts[|cuts| - 1], i) >= MinChunkRunes || merged == []
    requires i < |frags| ==> FragSum(frags, cuts[|cuts| - 1], i) + Len(frags[i]) > size
    requires merged' == merged + [current] && cuts' == cuts + [i]
    ensures MergedBy(merged', frags, cuts', size)
  {
    AppendCut(frags, cuts, size, i, cuts');
    assert Joined(merged', frags, cuts') by {
      forall k | 0 <= k < |merged'|
        ensures merged'[k] == Frag(frags[cuts'[k]].start, frags[cuts'[k + 1] - 1].end)
      {
        if k < |merged| {
          assert merged'[k] == merged[k] && cuts'[k] == cuts[k] && cuts'[k + 1] == cuts[k + 1];
        }
      }
    }
  }

  /** Folding keeps every piece but the first heavy: the folded piece only grows. */
  lemma FoldHeavy(frags: seq<Frag>, cuts: seq<nat>, i: nat, cuts': seq<nat>)
    requires Proper(frags) && Cuts(cuts, |frags|) && Heavy(frags, cuts) && |cuts| >= 2
    requires cuts[|cuts| - 1] < i <= |frags| && cuts' == cuts[|cuts| - 1 := i]
    ensures Cuts(cuts', |frags|) && Heavy(frags, cuts')
  {
    var last := |cuts| - 1;
    FragSumSplit(frags, cuts[last - 1], cuts[last], i);
    FragSumNonNegative(frags, cuts[last], i);
    assert Cuts(cuts', |frags|);
    forall k | 1 <= k < |cuts'| - 1
      ensures FragSum(frags, cuts'[k], cuts'[k + 1]) >= MinChunkRunes
    {
      if k + 1 < last {
        assert cuts'[k] == cuts[k] && cuts'[k + 1] == cuts[k + 1];
      } else {
        assert cuts'[k] == cuts[k] && cuts'[k + 1] == i;
      }
    }
  }

  /** Folding keeps the pieces saturated: the folded piece ends where the current group did. */
  lemma FoldSaturated(frags: seq<Frag>, cuts: seq<nat>, size: int, i: nat, cuts': seq<nat>)
    requires Proper(frags) && Cuts(cuts, |frags|) && Saturated(frags, cuts, size) && |cuts| >= 2
    requires cuts[|cuts| - 1] < i <= |frags| && cuts' == cuts[|cuts| - 1 := i]
    requires i < |frags| ==> FragSum(frags, cuts[|cuts| - 1], i) + Len(frags[i]) > size
    ensures Cuts(cuts', |frags|) && Saturated(frags, cuts', size)
  {
    var last := |cuts| - 1;
    FragSumSplit(frags, cuts[last - 1], cuts[last], i);
    FragSumNonNegative(frags, cuts[last - 1], cuts[last]);
    assert Cuts(cuts', |frags|);
    forall k | 0 <= k < |cuts'| - 1 && cuts'[k + 1] < |frags|
      ensures FragSum(frags, cuts'[k], cuts'[k + 1]) + Len(frags[cuts'[k + 1]]) > size
    {
      if k + 1 < last {
        assert cuts'[k] == cuts[k] && cuts'[k + 1] == cuts[k + 1];
      } else {
        assert cuts'[k] == cuts[k] && cuts'[k + 1] == i;
      }
    }
  }

  /** emit, folding a short current group into the last piece. */
  lemma EmitFold(merged: seq<Frag>, frags: seq<Frag>, cuts: seq<nat>, size: int, current: Frag, i: nat,
                 merged': seq<Frag>, cuts': seq<nat>)
    requires Proper(frags) && MergedBy(merged, frags, cuts, size) && cuts[|cuts| - 1] < i <= |frags| && merged != []
    requires current == Frag(frags[cuts[|cuts| - 1]].start, frags[i - 1].end)
    requires i < |frags| ==> FragSum(frags, cuts[|cuts| - 1], i) + Len(frags[i]) > size
    requires merged' == merged[|merged| - 1 := merged[|merged| - 1].(end := current.end)]
    requires cuts' == cuts[|cuts| - 1 := i]
    ensures MergedBy(merged', frags, cuts', size)
  {
    FoldHeavy(frags, cuts, i, cuts');
    FoldSaturated(frags, cuts, size, i, cuts');
    assert Joined(merged', frags, cuts') by {
      forall k {:trigger merged'[k]} | 0 <= k < |merged'|
        ensures 0 <= cuts'[k] < cuts'[k + 1] <= |frags|
        ensures merged'[k] == Frag(frags[cuts'[k]].start, frags[cuts'[k + 1] - 1].end)
      {
        assert cuts'[k] < cuts'[k + 1];
        if k + 1 < |merged| {
          assert cuts'[k] == cuts[k] && cuts'[k + 1] == cuts[k + 1];
        }
      }
    }
  }

  /**
   * The state of mergeFragments' loop before fragment i: the pieces so far
   * are merged from the closed groups, and the current group runs from the
   * last boundary to fragment i - 1 and fits size.
   */
  predicate Merging(frags: seq<Frag>, merged: seq<Frag>, cuts: seq<nat>, groups: seq<nat>, size: int,
                    current: Frag, currentRunes: int, i: nat) {
    Proper(frags) && 1 <= i <= |frags| && MergedBy(merged, frags, cuts, size) && cuts[|cuts| - 1] < i
    && current == Frag(frags[cuts[|cuts| - 1]].start, frags[i - 1].end)
    && currentRunes == FragSum(frags, cuts[|cuts| - 1], i)
    && Closed(frags, groups, size) && groups[|groups| - 1] == cuts[|cuts| - 1]
    && cuts == Opened(frags, groups, |groups| - 1) + [groups[|groups| - 1]]
    && (merged == [] <==> |groups| == 1) && Fits(frags, groups[|groups| - 1], i, size)
  }

  /** The loop's first state: the current group is the first fragment. */
  lemma MergingStart(frags: seq<Frag>, size: int)
    requires Proper(frags) && frags != []
    ensures Merging(frags, [], [0], [0], size, frags[0], Len(frags[0]), 1)
  {
    assert FragSum(frags, 0, 1) == Len(frags[0]);
    assert Opened(frags, [0], 0) == [];
  }

  /** The next fragment fits: it joins the current group. */
  lemma MergingGrow(frags: seq<Frag>, merged: seq<Frag>, cuts: seq<nat>, groups: seq<nat>, size: int,
                    current: Frag, currentRunes: int, i: nat)
    requires Merging(frags, merged, cuts, groups, size, current, currentRunes, i) && i < |frags|
    requires currentRunes + Len(frags[i]) <= size
    ensures Merging(frags, merged, cuts, groups, size, current.(end := frags[i].end), currentRunes + Len(frags[i]), i + 1)
  {
    GrowGroup(frags, cuts[|cuts| - 1], i, size);
  }

  /** After emit, fragment i starts the next group. */
  lemma MergingNext(frags: seq<Frag>, merged: seq<Frag>, cuts: seq<nat>, groups: seq<nat>, size: int, i: nat)
    requires Proper(frags) && i < |frags| && MergedBy(merged, frags, cuts, size) && cuts[|cuts| - 1] == i
    requires merged != [] && Closed(frags, groups, size) && |groups| >= 2 && groups[|groups| - 1] == i
    requires cuts == Opened(frags, groups, |groups| - 1) + [i]
    ensures Merging(frags, merged, cuts, groups, size, frags[i], Len(frags[i]), i + 1)
  {
    GrowGroup(frags, i, i, size);
  }

  /**
   * The emit closure of mergeFragments: a current group of at least
   * MinChunkRunes runes (or the very first) becomes a new piece, a shorter
   * one extends the last piece.
   */
  method Emit(frags: seq<Frag>, merged: seq<Frag>, ghost cuts: seq<nat>, ghost groups: seq<nat>, size: int,
              current: Frag, currentRunes: int, i: nat)
    returns (merged': seq<Frag>, ghost cuts': seq<nat>, ghost groups': seq<nat>)
    requires Merging(frags, merged, cuts, groups, size, current, currentRunes, i)
    requires i < |frags| ==> currentRunes + Len(frags[i]) > size
    ensures MergedBy(merged', frags, cuts', size) && cuts'[|cuts'| - 1] == i && merged' != []
    ensures groups' == groups + [i] && Closed(frags, groups', size)
    ensures cuts' == Opened(frags, groups', |groups'| - 1) + [i]
  {
    groups' := groups + [i];
    CloseGroup(frags, groups, size, i, groups');
    ghost var starts := Opened(frags, groups, |groups| - 1);
    if currentRunes >= MinChunkRunes || |merged| == 0 {
      EmitAppend(merged, frags, cuts, size, current, i, merged + [current], cuts + [i]);
      merged' := merged + [current];
      cuts' := cuts + [i];
      assert cuts' == starts + [groups[|groups| - 1]] + [i];
    } else {
      var updated := merged[|merged| - 1 := merged[|merged| - 1].(end := current.end)];
      EmitFold(merged, frags, cuts, size, current, i, updated, cuts[|cuts| - 1 := i]);
      merged' := updated;
      cuts' := cuts[|cuts| - 1 := i];
      assert cuts' == starts + [i];
    }
  }

  /** One iteration of mergeFragments' loop: fragment i joins the current group, or emit closes it and i starts the next. */
  method MergeStep(frags: seq<Frag>, merged: seq<Frag>, ghost cuts: seq<nat>, ghost groups: seq<nat>, size: int,
                   current: Frag, currentRunes: int, i: nat)
    returns (merged': seq<Frag>, ghost cuts': seq<nat>, ghost groups': seq<nat>, current': Frag, currentRunes': int)
    requires Merging(frags, merged, cuts, groups, size, current, currentRunes, i) && i < |frags|
    ensures Merging(frags, merged', cuts', groups', size, current', currentRunes', i + 1)
  {
    var nextRunes := Len(frags[i]);
    if currentRunes + nextRunes <= size {
      MergingGrow(frags, merged, cuts, groups, size, current, currentRunes, i);
      merged', cuts', groups' := merged, cuts, groups;
      current' := current.(end := frags[i].end);
      currentRunes' := currentRunes + nextRunes;
    } else {
      merged', cuts', groups' := Emit(frags, merged, cuts, groups, size, current, currentRunes, i);
      MergingNext(frags, merged', cuts', groups', size, i);
      current' := frags[i];
      currentRunes' := nextRunes;
    }
  }

  /**
   * mergeFragments: neighbours join the current group while the group's
   * rune count stays within size; each group is then emitted.
   */
  method MergeFragments(text: string, frags: seq<Frag>, size: int)
    returns (merged: seq<Frag>, ghost cuts: seq<nat>, ghost groups: seq<nat>)
    requires Within(frags, 0, |text|)
    ensures frags == [] ==> merged == []
    ensures frags != [] ==> MergedBy(merged, frags, cuts, size) && cuts[|cuts| - 1] == |frags|
    ensures frags != [] ==> Greedy(frags, groups, size) && cuts == Opened(frags, groups, |groups| - 1) + [|frags|]
  {
    cuts, groups := [0], [0];
    if |frags| == 0 {
      return [], cuts, groups;
    }
    merged := [];
    var current := frags[0];
    var currentRunes := Len(current);
    var i := 1;
    assert Proper(frags);
    MergingStart(frags, size);
    while i < |frags|
      invariant Merging(frags, merged, cuts, groups, size, current, currentRunes, i)
      decreases |frags| - i
    {
      merged, cuts, groups, current, currentRunes := MergeStep(frags, merged, cuts, groups, size, current, currentRunes, i);
      i := i + 1;
    }
    merged, cuts, groups := Emit(frags, merged, cuts, groups, size, current, currentRunes, i);
  }

  /** Ordered fragments with start <= end: later fragments start and end later. */
  lemma {:induction false} OrderedMonotone(frags: seq<Frag>, i: nat, j: nat)
    requires Ordered(frags) && Proper(frags) && i <= j < |frags|
    ensures frags[i].start <= frags[j].start && frags[i].end <= frags[j].end
    decreases j
  {
    if i < j {
      OrderedMonotone(frags, i, j - 1);
    }
  }

  /** Over adjacent fragments, the rune count of a group is its span. */
  lemma {:induction false} FragSumSpan(frags: seq<Frag>, a: nat, b: nat)
    requires Adjacent(frags) && a < b <= |frags|
    ensures FragSum(frags, a, b) == frags[b - 1].end - frags[a].start
    decreases b
  {
    if a + 1 < b {
      FragSumSpan(frags, a, b - 1);
    }
  }

  /** Merging ordered fragments inside [x, y) gives ordered pieces inside [x, y). */
  lemma MergedWithin(merged: seq<Frag>, frags: seq<Frag>, cuts: seq<nat>, size: int, x: int, y: int)
    requires Within(frags, x, y) && Ordered(frags) && MergedBy(merged, frags, cuts, size)
    ensures Within(merged, x, y) && Ordered(merged)
  {
    assert Proper(frags);
    forall k | 0 <= k < |merged|
      ensures x <= merged[k].start <= merged[k].end <= y
    {
      OrderedMonotone(frags, cuts[k], cuts[k + 1] - 1);
    }
    forall k | 0 <= k < |merged| - 1
      ensures merged[k].end <= merged[k + 1].start
    {
      assert cuts[k] < cuts[k + 1] < cuts[k + 2] <= |frags|;
      assert frags[cuts[k + 1] - 1].end <= frags[cuts[k + 1]].start;
    }
  }

  /** Merging fragments that cover [x, y) gives pieces that cover [x, y). */
  lemma MergedTiles(merged: seq<Frag>, frags: seq<Frag>, cuts: seq<nat>, size: int, x: int, y: int)
    requires FragTiles(frags, x, y) && MergedBy(merged, frags, cuts, size) && cuts[|cuts| - 1] == |frags|
    ensures FragTiles(merged, x, y)
  {
    MergedWithin(merged, frags, cuts, size, x, y);
    assert Proper(frags);
    forall k | 0 <= k < |merged|
      ensures merged[k].start < merged[k].end
    {
      OrderedMonotone(frags, cuts[k], cuts[k + 1] - 1);
    }
    forall k | 0 <= k < |merged| - 1
      ensures merged[k].end == merged[k + 1].start
    {
      assert cuts[k] < cuts[k + 1] < cuts[k + 2] <= |frags|;
      assert frags[cuts[k + 1] - 1].end == frags[cuts[k + 1]].start;
    }
    if merged != [] {
      assert merged[0] == Frag(frags[cuts[0]].start, frags[cuts[1] - 1].end) && cuts[0] == 0;
      assert merged[|merged| - 1].end == frags[|frags| - 1].end;
    } else {
      assert |cuts| == 1;
    }
  }

  /** Over fragments that cover the text, a merged piece's rune count is its group's sum. */
  lemma MergedRunes(merged: seq<Frag>, frags: seq<Frag>, cuts: seq<nat>, size: int, x: int, y: int)
    requires FragTiles(frags, x, y) && MergedBy(merged, frags, cuts, size)
    ensures forall k :: 0 <= k < |merged| ==> Len(merged[k]) == FragSum(frags, cuts[k], cuts[k + 1])
  {
    forall k | 0 <= k < |merged|
      ensures Len(merged[k]) == FragSum(frags, cuts[k], cuts[k + 1])
    {
      FragSumSpan(frags, cuts[k], cuts[k + 1]);
    }
  }

  // ---------------------------------------------------------------------
  // Overlap
  // ---------------------------------------------------------------------

  function Max0(n: int): nat {
    if n < 0 then 0 else n
  }

  /**
   * r is pos walked back by up to n runes but not past limit: it stays at
   * pos when pos is already at or before limit, and otherwise stops after n
   * runes or at limit, whichever comes first.
   */
  predicate WalkedBack(r: int, pos: int, limit: int, n: int) {
    (pos <= limit ==> r == pos)
    && (pos > limit ==> limit <= r <= pos && pos - r <= Max0(n) && (r == limit || pos - r == Max0(n)))
  }

  /** walkBackRunes: one rune per step, at most n steps, never past limit. */
  method WalkBackRunes(text: string, pos: nat, limit: nat, n: int) returns (r: nat)
    requires pos <= |text|
    ensures WalkedBack(r, pos, limit, n)
  {
    r := pos;
    var step := 0;
    while step < n
      invariant 0 <= step <= Max0(n) && r <= pos
      invariant pos <= limit ==> r == pos
      invariant pos > limit ==> limit <= r && pos - r == step
    {
      if r <= limit {
        break;
      }
      if r == 0 {
        break;
      }
      r := r - 1;
      step := step + 1;
    }
  }

  /**
   * The boundary applyOverlap walks chunk k back towards. As written it is
   * the previous fragment's end; the evident intent, stated by the comment
   * beside it, is the previous fragment's start.
   */
  function OverlapLimit(frags: seq<Frag>, k: nat, asWritten: bool): int
    requires 0 < k < |frags|
  {
    if asWritten then frags[k - 1].end else frags[k - 1].start
  }

  /**
   * Chunk k ends where fragment k ends and is the slice of the text up to
   * there; it starts at the fragment's start walked back by the overlap
   * towards OverlapLimit (the first chunk, and every chunk when the overlap
   * is not positive, starts at its fragment).
   */
  predicate OverlapChunks(chunks: seq<Chunk>, text: string, frags: seq<Frag>, overlap: int, asWritten: bool)
    requires |chunks| <= |frags|
  {
    forall k :: 0 <= k < |chunks| ==> OverlapChunk(chunks[k], k, text, frags, overlap, asWritten)
  }

  /** Chunk c is the one applyOverlap builds for fragment k. */
  predicate OverlapChunk(c: Chunk, k: nat, text: string, frags: seq<Frag>, overlap: int, asWritten: bool)
    requires k < |frags|
  {
    c.end == frags[k].end && c.start <= c.end <= |text| && c.text == text[c.start..c.end]
    && (k == 0 || overlap <= 0 ==> c.start == frags[k].start)
    && (k > 0 && overlap > 0 ==> WalkedBack(c.start, frags[k].start, OverlapLimit(frags, k, asWritten), overlap))
  }

  lemma OverlapSnoc(chunks: seq<Chunk>, text: string, frags: seq<Frag>, overlap: int, asWritten: bool, c: Chunk, chunks': seq<Chunk>)
    requires |chunks| < |frags| && OverlapChunks(chunks, text, frags, overlap, asWritten) && Indexed(chunks)
    requires OverlapChunk(c, |chunks|, text, frags, overlap, asWritten)
    requires c.index == |chunks| && chunks' == chunks + [c]
    ensures OverlapChunks(chunks', text, frags, overlap, asWritten) && Indexed(chunks')
  {
    assert forall k :: 0 <= k < |chunks| ==> chunks'[k] == chunks[k];
  }

  /**
   * One chunk per merged fragment, at most MaxChunks, each walked back by
   * the overlap towards OverlapLimit.
   */
  method OverlapTowards(text: string, frags: seq<Frag>, overlap: int, asWritten: bool) returns (chunks: seq<Chunk>)
    requires Within(frags, 0, |text|)
    ensures |chunks| == Min(|frags|, MaxChunks) && Indexed(chunks) && OverlapChunks(chunks, text, frags, overlap, asWritten)
  {
    chunks := [];
    var i := 0;
    while i < |frags|
      invariant 0 <= i <= |frags| && |chunks| == i <= MaxChunks
      invariant Indexed(chunks) && OverlapChunks(chunks, text, frags, overlap, asWritten)
    {
      if |chunks| >= MaxChunks {
        break;
      }
      var f := frags[i];
      var startByte := f.start;
      if i > 0 && overlap > 0 {
        startByte := WalkBackRunes(text, f.start, OverlapLimit(frags, i, asWritten), overlap);
      }
      var c := Chunk(text[startByte..f.end], startByte, f.end, |chunks|);
      OverlapSnoc(chunks, text, frags, overlap, asWritten, c, chunks + [c]);
      chunks := chunks + [c];
      i := i + 1;
    }
  }

  /**
   * applyOverlap as written: the walk back stops at the previous fragment's
   * end, so no chunk reaches into its predecessor, and over adjacent
   * fragments every chunk starts exactly at its fragment, whatever the
   * overlap.
   */
  method ApplyOverlap(text: string, frags: seq<Frag>, overlap: int) returns (chunks: seq<Chunk>)
    requires Within(frags, 0, |text|)
    ensures |chunks| == Min(|frags|, MaxChunks) && Indexed(chunks) && OverlapChunks(chunks, text, frags, overlap, true)
    ensures Ordered(frags) ==> forall k :: 0 < k < |chunks| ==> frags[k - 1].end <= chunks[k].start
    ensures Adjacent(frags) ==> forall k :: 0 <= k < |chunks| ==> chunks[k].start == frags[k].start
  {
    chunks := OverlapTowards(text, frags, overlap, true);
    OverlapNoOpAsWritten(chunks, text, frags, overlap);
  }

  /** The walk back towards the previous fragment's end never passes it. */
  lemma OverlapNoOpAsWritten(chunks: seq<Chunk>, text: string, frags: seq<Frag>, overlap: int)
    requires |chunks| <= |frags| && OverlapChunks(chunks, text, frags, overlap, true)
    ensures Ordered(frags) ==> forall k :: 0 < k < |chunks| ==> frags[k - 1].end <= chunks[k].start
    ensures Adjacent(frags) ==> forall k :: 0 <= k < |chunks| ==> chunks[k].start == frags[k].start
  {
    forall k | 0 < k < |chunks| && overlap > 0
      ensures WalkedBack(chunks[k].start, frags[k].start, frags[k - 1].end, overlap)
    {
      assert OverlapLimit(frags, k, true) == frags[k - 1].end;
    }
  }

  /** applyOverlap as evidently intended: the walk back stops at the previous fragment's start. */
  method ApplyOverlapIntended(text: string, frags: seq<Frag>, overlap: int) returns (chunks: seq<Chunk>)
    requires Within(frags, 0, |text|)
    ensures |chunks| == Min(|frags|, MaxChunks) && Indexed(chunks) && OverlapChunks(chunks, text, frags, overlap, false)
  {
    chunks := OverlapTowards(text, frags, overlap, false);
  }

  /**
   * Walking back towards the previous fragment's start, each chunk after
   * the first takes the last min(overlap, previous length) runes of the
   * previous fragment.
   */
  lemma OverlapApplied(chunks: seq<Chunk>, text: string, frags: seq<Frag>, overlap: int, k: nat)
    requires Adjacent(frags) && Proper(frags) && |chunks| <= |frags|
    requires OverlapChunks(chunks, text, frags, overlap, false) && overlap > 0 && 0 < k < |chunks|
    ensures chunks[k].start == frags[k].start - Min(overlap, Len(frags[k - 1]))
    ensures chunks[k].start >= chunks[k - 1].start
  {
    assert frags[k - 1].end == frags[k].start;
    assert OverlapLimit(frags, k, false) == frags[k - 1].start;
    StartsBefore(chunks, text, frags, overlap, k - 1);
  }

  /** No chunk starts after its fragment. */
  lemma StartsBefore(chunks: seq<Chunk>, text: string, frags: seq<Frag>, overlap: int, k: nat)
    requires |chunks| <= |frags| && OverlapChunks(chunks, text, frags, overlap, false) && k < |chunks|
    ensures chunks[k].start <= frags[k].start
  {
    if k > 0 && overlap > 0 {
      assert WalkedBack(chunks[k].start, frags[k].start, OverlapLimit(frags, k, false), overlap);
    }
  }

  // ---------------------------------------------------------------------
  // The pipeline
  // ---------------------------------------------------------------------

  /**
   * The chunks Recursive returns for text, size and overlap, with the
   * fragments, the greedy groups, the cut points and the merged pieces
   * behind them: nil for empty text or a size below 1; otherwise the
   * fragments are the recursive split of the whole text, they are merged
   * group by group, and the merged pieces are overlapped by the clamped
   * overlap as written. Below MaxChunks fragments the merged pieces cover
   * the text and the chunk texts concatenate to it.
   */
  predicate RecursiveChunks(text: string, size: int, overlap: int, chunks: seq<Chunk>,
                            frags: seq<Frag>, merged: seq<Frag>, cuts: seq<nat>, groups: seq<nat>) {
    (chunks == [] <==> text == "" || size <= 0)
    && (text != "" && size > 0 ==>
          frags == SplitOf(text, Frag(0, |text|), size, 0)
          && Within(frags, 0, |text|) && Ordered(frags) && Small(frags, size)
          && Greedy(frags, groups, size) && cuts == Opened(frags, groups, |groups| - 1) + [|frags|]
          && MergedBy(merged, frags, cuts, size)
          && |chunks| == Min(|merged|, MaxChunks) && Indexed(chunks)
          && OverlapChunks(chunks, text, merged, ClampOverlap(size, overlap), true)
          && (|frags| < MaxChunks ==>
                FragTiles(merged, 0, |text|) && |chunks| == |merged| && chunks != []
                && chunks[|chunks| - 1].end == |text| && Texts(chunks) == text))
  }

  /**
   * Recursive: nil for empty text or a size below 1; otherwise the text
   * split into fragments of at most size runes, merged, and overlapped by
   * the clamped overlap. Below MaxChunks fragments the merged pieces cover
   * the text and the last chunk ends at its end; since the overlap as
   * written never reaches into the previous piece, the chunk texts then
   * concatenate to the input whatever the overlap.
   */
  method Recursive(text: string, size: int, overlap: int)
    returns (chunks: seq<Chunk>, ghost frags: seq<Frag>, ghost merged: seq<Frag>, ghost cuts: seq<nat>,
             ghost groups: seq<nat>)
    ensures RecursiveChunks(text, size, overlap, chunks, frags, merged, cuts, groups)
  {
    frags, merged, cuts, groups := [], [], [0], [0];
    if text == "" || size <= 0 {
      return [], frags, merged, cuts, groups;
    }
    var o := ClampOverlap(size, overlap);
    var fragments := SplitFragment(text, Frag(0, |text|), size, 0);
    frags := fragments;
    if |fragments| == 0 {
      return [], frags, merged, cuts, groups;
    }
    var m;
    m, cuts, groups := MergeFragments(text, fragments, size);
    merged := m;
    MergedWithin(m, fragments, cuts, size, 0, |text|);
    chunks := ApplyOverlap(text, m, o);
    if |fragments| < MaxChunks {
      MergedTiles(m, fragments, cuts, size, 0, |text|);
      MergedFew(m, fragments, cuts, size);
      FullCover(text, m, o, chunks);
    }
  }

  /** Merging never adds pieces: there are at most as many merged pieces as fragments. */
  lemma MergedFew(merged: seq<Frag>, frags: seq<Frag>, cuts: seq<nat>, size: int)
    requires MergedBy(merged, frags, cuts, size) && cuts[|cuts| - 1] == |frags|
    ensures |merged| <= |frags|
  {
    CutsBound(cuts, |frags|);
  }

  /** Below the chunk cap there is one chunk per merged piece, and over tiling pieces the chunks rebuild the text. */
  lemma FullCover(text: string, merged: seq<Frag>, o: int, chunks: seq<Chunk>)
    requires FragTiles(merged, 0, |text|) && |merged| < MaxChunks
    requires chunks != [] && |chunks| == Min(|merged|, MaxChunks) && OverlapChunks(chunks, text, merged, o, true)
    ensures |chunks| == |merged|
    ensures chunks[|chunks| - 1].end == |text|
    ensures Texts(chunks) == text
  {
    var last := |chunks| - 1;
    assert OverlapChunk(chunks[last], last, text, merged, o, true);
    Reconstructs(chunks, text, merged, o, true);
  }

  /** Strictly increasing cuts from 0 up to n are at most n + 1 of them. */
  lemma {:induction false} CutsBound(cuts: seq<nat>, n: nat)
    requires Cuts(cuts, n)
    ensures |cuts| <= n + 1
    ensures cuts[|cuts| - 1] >= |cuts| - 1
    decreases |cuts|
  {
    if |cuts| > 1 {
      var init := cuts[..|cuts| - 1];
      assert Cuts(init, n);
      CutsBound(init, n);
      assert cuts[|cuts| - 2] < cuts[|cuts| - 1] <= n;
    }
  }

  /**
   * Over pieces that cover the text, the chunk texts concatenate to the
   * input when the walk back stops at the previous piece's end (as
   * written) or when the overlap is not positive.
   */
  lemma Reconstructs(chunks: seq<Chunk>, text: string, merged: seq<Frag>, overlap: int, asWritten: bool)
    requires FragTiles(merged, 0, |text|) && |chunks| == |merged| && chunks != []
    requires OverlapChunks(chunks, text, merged, overlap, asWritten) && (asWritten || overlap <= 0)
    ensures Texts(chunks) == text
  {
    ChunksAtPieces(chunks, text, merged, overlap, asWritten);
    assert ChunkSlices(chunks, text);
    assert BackToBack(chunks) by {
      forall k | 0 <= k < |chunks| - 1
        ensures chunks[k].end == chunks[k + 1].start
      {
        assert merged[k].end == merged[k + 1].start;
      }
    }
    BackToBackTexts(chunks, text);
    assert text[..|text|] == text;
  }

  /** Over adjacent pieces, each chunk spans exactly its own piece: the walk back is a no-op as written. */
  lemma ChunksAtPieces(chunks: seq<Chunk>, text: string, merged: seq<Frag>, overlap: int, asWritten: bool)
    requires FragTiles(merged, 0, |text|) && |chunks| == |merged|
    requires OverlapChunks(chunks, text, merged, overlap, asWritten) && (asWritten || overlap <= 0)
    ensures forall k :: 0 <= k < |chunks| ==> chunks[k].start == merged[k].start && chunks[k].end == merged[k].end
  {
    if asWritten {
      assert Adjacent(merged);
      OverlapNoOpAsWritten(chunks, text, merged, overlap);
    }
    forall k | 0 <= k < |chunks|
      ensures chunks[k].start == merged[k].start && chunks[k].end == merged[k].end
    {
      assert OverlapChunk(chunks[k], k, text, merged, overlap, asWritten);
    }
  }

  /** Chunks: the chunk texts of Recursive with the default size and overlap. */
  method Chunks(text: string)
    returns (texts: seq<string>, ghost chunks: seq<Chunk>, ghost frags: seq<Frag>, ghost merged: seq<Frag>,
             ghost cuts: seq<nat>, ghost groups: seq<nat>)
    ensures texts == [] <==> text == ""
    ensures RecursiveChunks(text, DefaultChunkSize, DefaultOverlap, chunks, frags, merged, cuts, groups)
    ensures |texts| == |chunks| && forall i :: 0 <= i < |texts| ==> texts[i] == chunks[i].text
    ensures forall i :: 0 <= i < |chunks| ==>
      chunks[i].start <= chunks[i].end <= |text| && chunks[i].text == text[chunks[i].start..chunks[i].end]
  {
    var cs;
    cs, frags, merged, cuts, groups := Recursive(text, DefaultChunkSize, DefaultOverlap);
    chunks := cs;
    texts := ChunkTexts(cs);
  }

  /** The text of each chunk, in order. */
  method ChunkTexts(cs: seq<Chunk>) returns (texts: seq<string>)
    ensures |texts| == |cs| && forall i :: 0 <= i < |texts| ==> texts[i] == cs[i].text
  {
    texts := [];
    var i := 0;
    while i < |cs|
      invariant 0 <= i <= |cs| && |texts| == i
      invariant forall j :: 0 <= j < i ==> texts[j] == cs[j].text
    {
      texts := texts + [cs[i].text];
      i := i + 1;
    }
  }
}
