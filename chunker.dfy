/**
 * Chunks and the size-based splitter: BySize cuts the text into windows of
 * size runes whose starts advance by size - overlap, folding a short
 * trailing window into the previous chunk, and stops at MaxChunks chunks.
 *
 * Offsets here are rune indices; the byte offsets of the library are the
 * prefix byte lengths that BuildRuneOffsets tabulates.
 */
module Chunker {
  import Unicode

  const MaxChunks: nat := 10000
  const DefaultChunkSize: nat := 512
  const DefaultOverlap: nat := 50
  const MinChunkRunes: nat := 10

  datatype Chunk = Chunk(text: string, start: nat, end: nat, index: nat)

  function Min(a: int, b: int): int { if a <= b then a else b }

  /** Each chunk is the non-empty slice of text between its offsets. */
  predicate ChunkSlices(cs: seq<Chunk>, text: string) {
    forall k :: 0 <= k < |cs| ==> cs[k].start < cs[k].end <= |text| && cs[k].text == text[cs[k].start..cs[k].end]
  }

  /** The chunk indices run 0, 1, 2, ... */
  predicate Indexed(cs: seq<Chunk>) {
    forall k :: 0 <= k < |cs| ==> cs[k].index == k
  }

  /** clampOverlap: the overlap is forced into [0, size - 1]. */
  function ClampOverlap(size: int, overlap: int): (r: int)
    ensures overlap < 0 ==> r == 0
    ensures 0 <= overlap < size ==> r == overlap
    ensures overlap >= size && overlap >= 0 ==> r == size - 1
    ensures size > 0 ==> 0 <= r < size
  {
    if overlap < 0 then 0 else if overlap >= size then size - 1 else overlap
  }

  /** The distance between window starts: size - overlap, at least 1. */
  function Step(size: int, overlap: int): (st: int)
    ensures st >= 1 && st >= size - overlap
    ensures 0 <= overlap ==> st <= size || size < 1
  {
    if size - overlap <= 0 then 1 else size - overlap
  }

  /**
   * buildRuneOffsets: entry i is the byte offset of rune i, and the extra
   * last entry is the byte length of the text.
   */
  method BuildRuneOffsets(text: string) returns (offsets: seq<nat>)
    ensures |offsets| == |text| + 1
    ensures forall i :: 0 <= i <= |text| ==> offsets[i] == Unicode.ByteLen(text[..i])
    ensures offsets[|text|] == Unicode.ByteLen(text)
  {
    offsets := [];
    var b := 0;
    for i := 0 to |text|
      invariant |offsets| == i && b == Unicode.ByteLen(text[..i])
      invariant forall j :: 0 <= j < i ==> offsets[j] == Unicode.ByteLen(text[..j])
    {
      offsets := offsets + [b];
      assert text[..i + 1][..i] == text[..i];
      b := b + Unicode.RuneLen(text[i]);
    }
    assert text[..|text|] == text;
    offsets := offsets + [b];
  }

  /** The byte offsets of successive runes strictly increase. */
  lemma {:induction false} OffsetsIncrease(text: string, i: nat, j: nat)
    requires i < j <= |text|
    ensures Unicode.ByteLen(text[..i]) < Unicode.ByteLen(text[..j])
    decreases j - i
  {
    assert text[..j][..j - 1] == text[..j - 1];
    if i < j - 1 {
      OffsetsIncrease(text, i, j - 1);
    }
  }

  /** The windows start at 0 and each starts step runes after the one before. */
  predicate Stepped(cs: seq<Chunk>, step: int) {
    (cs != [] ==> cs[0].start == 0)
    && forall k :: 0 <= k < |cs| - 1 ==> cs[k + 1].start == cs[k].start + step
  }

  /** Each window ends size runes after its start, or at the end of the text. */
  predicate Full(cs: seq<Chunk>, n: nat, size: int) {
    forall k :: 0 <= k < |cs| ==> cs[k].end == Min(cs[k].start + size, n)
  }

  /** Every window after the first has at least min(MinChunkRunes, size) runes. */
  predicate Long(cs: seq<Chunk>, size: int) {
    forall k :: 1 <= k < |cs| ==> cs[k].end - cs[k].start >= Min(MinChunkRunes, size)
  }

  /**
   * What bySize promises: stepped windows, each full but the last, which is
   * full or, below MaxChunks, reaches the end of the text, none after the
   * first short; below MaxChunks the windows stop only where the next start
   * is past the text or the tail from there was folded into the last one.
   */
  predicate SizeWindows(cs: seq<Chunk>, text: string, size: int, step: int) {
    ChunkSlices(cs, text) && Indexed(cs) && |cs| <= MaxChunks && Stepped(cs, step) && Long(cs, size)
    && (forall k :: 0 <= k < |cs| - 1 ==> cs[k].end == Min(cs[k].start + size, |text|))
    && (cs != [] ==>
          cs[|cs| - 1].end == Min(cs[|cs| - 1].start + size, |text|)
          || (|cs| < MaxChunks && cs[|cs| - 1].end == |text|))
    && (cs != [] && |cs| < MaxChunks ==> Stopped(cs[|cs| - 1], |text|, size, step))
  }

  /**
   * The loop ends after the window last: the next start is past the text,
   * or the tail from there is shorter than min(MinChunkRunes, size) and
   * last was stretched over it.
   */
  predicate Stopped(last: Chunk, n: nat, size: int, step: int) {
    var next := last.start + step;
    next >= n || (n - next < Min(MinChunkRunes, size) && last.end == n)
  }

  lemma SlicesSnoc(cs: seq<Chunk>, text: string, c: Chunk, cs': seq<Chunk>)
    requires ChunkSlices(cs, text) && Indexed(cs) && cs' == cs + [c]
    requires c.start < c.end <= |text| && c.text == text[c.start..c.end] && c.index == |cs|
    ensures ChunkSlices(cs', text) && Indexed(cs')
  {
  }

  lemma SteppedSnoc(cs: seq<Chunk>, step: int, c: Chunk, cs': seq<Chunk>)
    requires Stepped(cs, step) && cs' == cs + [c]
    requires cs == [] ==> c.start == 0
    requires cs != [] ==> c.start == cs[|cs| - 1].start + step
    ensures Stepped(cs', step)
  {
  }

  lemma FullSnoc(cs: seq<Chunk>, n: nat, size: int, c: Chunk, cs': seq<Chunk>)
    requires Full(cs, n, size) && cs' == cs + [c] && c.end == Min(c.start + size, n)
    ensures Full(cs', n, size)
  {
  }

  lemma LongSnoc(cs: seq<Chunk>, size: int, c: Chunk, cs': seq<Chunk>)
    requires Long(cs, size) && cs' == cs + [c]
    requires cs != [] ==> c.end - c.start >= Min(MinChunkRunes, size)
    ensures Long(cs', size)
  {
  }

  /** A full list of windows has the bySize shape. */
  lemma FullWindows(cs: seq<Chunk>, text: string, size: int, step: int)
    requires ChunkSlices(cs, text) && Indexed(cs) && |cs| <= MaxChunks && Stepped(cs, step) && Long(cs, size)
    requires Full(cs, |text|, size)
    requires cs != [] && |cs| < MaxChunks ==> Stopped(cs[|cs| - 1], |text|, size, step)
    ensures SizeWindows(cs, text, size, step)
  {
  }

  /** Folding the short tail into the last window keeps the shape and reaches the end of the text. */
  lemma MergeTail(cs: seq<Chunk>, text: string, size: int, step: int, endRune: nat, cs': seq<Chunk>)
    requires ChunkSlices(cs, text) && Indexed(cs) && |cs| <= MaxChunks && Stepped(cs, step) && Long(cs, size)
    requires Full(cs, |text|, size) && cs != [] && endRune == |text| && |cs| < MaxChunks
    requires cs[|cs| - 1].start < endRune
    requires cs' == cs[|cs| - 1 := cs[|cs| - 1].(text := text[cs[|cs| - 1].start..endRune], end := endRune)]
    requires Stopped(cs'[|cs'| - 1], |text|, size, step)
    ensures SizeWindows(cs', text, size, step) && cs'[|cs'| - 1].end == |text|
  {
    assert forall k :: 0 <= k < |cs'| - 1 ==> cs'[k] == cs[k];
    assert ChunkSlices(cs', text) by {
      forall k | 0 <= k < |cs'| ensures cs'[k].start < cs'[k].end <= |text| && cs'[k].text == text[cs'[k].start..cs'[k].end] {
        if k < |cs| - 1 {
          assert cs'[k] == cs[k];
        }
      }
    }
    assert Long(cs', size) by {
      forall k | 1 <= k < |cs'| ensures cs'[k].end - cs'[k].start >= Min(MinChunkRunes, size) {
        if k < |cs| - 1 {
          assert cs'[k] == cs[k];
        } else {
          assert cs[k].end <= endRune;
        }
      }
    }
    assert Stepped(cs', step) by {
      forall k | 0 <= k < |cs'| ensures cs'[k].start == cs[k].start {
      }
    }
  }

  /** bySize: the window loop over rune positions. */
  method BySizeWindows(text: string, size: int, overlap: int) returns (chunks: seq<Chunk>)
    requires 0 <= overlap
    ensures size <= 0 || text == "" ==> chunks == []
    ensures size > 0 && text != "" ==> chunks != []
    ensures SizeWindows(chunks, text, size, Step(size, overlap))
    ensures |chunks| < MaxChunks && chunks != [] ==> chunks[|chunks| - 1].end == |text|
  {
    if size <= 0 || text == "" {
      return [];
    }
    var totalRunes := |text|;
    var step := Step(size, overlap);
    chunks := [];
    var runePos := 0;
    while runePos < totalRunes && |chunks| < MaxChunks
      invariant ChunkSlices(chunks, text) && Indexed(chunks) && |chunks| <= MaxChunks
      invariant Stepped(chunks, step) && Long(chunks, size) && Full(chunks, |text|, size)
      invariant chunks == [] ==> runePos == 0
      invariant chunks != [] ==> runePos == chunks[|chunks| - 1].start + step
      invariant chunks != [] && runePos >= totalRunes ==> chunks[|chunks| - 1].end == totalRunes
      decreases totalRunes - runePos
    {
      var endRune := Min(runePos + size, totalRunes);
      var chunkRuneLen := endRune - runePos;
      if chunkRuneLen < MinChunkRunes && chunkRuneLen < size && |chunks| > 0 {
        // The short tail joins the previous chunk.
        var prev := chunks[|chunks| - 1];
        var merged := chunks[|chunks| - 1 := prev.(text := text[prev.start..endRune], end := endRune)];
        assert Stopped(merged[|merged| - 1], |text|, size, step);
        MergeTail(chunks, text, size, step, endRune, merged);
        return merged;
      }
      var c := Chunk(text[runePos..endRune], runePos, endRune, |chunks|);
      var next := chunks + [c];
      SlicesSnoc(chunks, text, c, next);
      SteppedSnoc(chunks, step, c, next);
      FullSnoc(chunks, |text|, size, c, next);
      LongSnoc(chunks, size, c, next);
      chunks := next;
      runePos := runePos + step;
    }
    FullWindows(chunks, text, size, step);
  }

  /** Two stepped lists from offset 0 agree on the start of every window both have. */
  lemma {:induction false} SameStarts(a: seq<Chunk>, b: seq<Chunk>, step: int, k: nat)
    requires Stepped(a, step) && Stepped(b, step) && k < |a| && k < |b|
    ensures a[k].start == b[k].start
  {
    if k > 0 {
      SameStarts(a, b, step, k - 1);
    }
  }

  /** A longer stepped list has its next window step runes after the shorter one's last. */
  lemma NextStart(a: seq<Chunk>, b: seq<Chunk>, step: int)
    requires Stepped(a, step) && Stepped(b, step) && 0 < |a| < |b|
    ensures b[|a|].start == a[|a| - 1].start + step
  {
    SameStarts(a, b, step, |a| - 1);
  }

  /** No list of the bySize shape runs on past one that has stopped. */
  lemma NoLonger(a: seq<Chunk>, b: seq<Chunk>, text: string, size: int, step: int)
    requires SizeWindows(a, text, size, step) && SizeWindows(b, text, size, step) && a != []
    ensures |b| <= |a|
  {
    if |a| < |b| {
      NextStart(a, b, step);
      assert false;
    }
  }

  /**
   * The bySize shape pins the windows: with a step of at most size, two
   * non-empty lists of that shape over the same text are equal.
   */
  lemma SizeWindowsUnique(a: seq<Chunk>, b: seq<Chunk>, text: string, size: int, step: int)
    requires 1 <= step <= size
    requires SizeWindows(a, text, size, step) && SizeWindows(b, text, size, step) && a != [] && b != []
    ensures a == b
  {
    NoLonger(a, b, text, size, step);
    NoLonger(b, a, text, size, step);
    forall k | 0 <= k < |a| ensures a[k] == b[k] {
      SameStarts(a, b, step, k);
    }
  }

  /** In a stepped list each window starts step runes after the one before. */
  lemma WindowAfter(cs: seq<Chunk>, step: int, k: nat)
    requires Stepped(cs, step) && k + 1 < |cs|
    ensures cs[k + 1].start == cs[k].start + step
  {
  }

  /** A window k whose successor would start past the text is the last one. */
  lemma NoWindowPast(cs: seq<Chunk>, text: string, step: int, k: nat)
    requires ChunkSlices(cs, text) && Stepped(cs, step) && k < |cs| && cs[k].start + step >= |text|
    ensures |cs| == k + 1
  {
    if k + 1 < |cs| {
      WindowAfter(cs, step, k);
    }
  }

  /**
   * A tail of exactly MinChunkRunes runes is a window of its own: over 40
   * runes with size 30 and step 15 the windows are [0, 30), [15, 40) and
   * [30, 40).
   */
  lemma TailOfTenKept(cs: seq<Chunk>, text: string)
    requires |text| == 40 && SizeWindows(cs, text, 30, 15) && cs != []
    ensures |cs| == 3 && cs[1].start == 15 && cs[1].end == 40 && cs[2].start == 30 && cs[2].end == 40
  {
    assert cs[0].start == 0;
    if |cs| == 1 {
      assert false;
    }
    assert cs[1].start == 15;
    if |cs| == 2 {
      assert false;
    }
    assert cs[2].start == 30;
    NoWindowPast(cs, text, 15, 2);
  }

  /** BySize: nil for empty text or a size below 1; the overlap is clamped first. */
  method BySize(text: string, size: int, overlap: int) returns (chunks: seq<Chunk>)
    ensures chunks == [] <==> text == "" || size <= 0
    ensures size > 0 ==> SizeWindows(chunks, text, size, Step(size, ClampOverlap(size, overlap)))
    ensures |chunks| < MaxChunks && chunks != [] ==> chunks[|chunks| - 1].end == |text|
  {
    if text == "" || size <= 0 {
      return [];
    }
    var o := ClampOverlap(size, overlap);
    chunks := BySizeWindows(text, size, o);
  }

  /** With overlap 0 the step is the size, so each window starts where the one before ends. */
  lemma NoOverlapBackToBack(cs: seq<Chunk>, text: string, size: int)
    requires size > 0 && SizeWindows(cs, text, size, size)
    ensures BackToBack(cs)
  {
    forall k | 0 <= k < |cs| - 1 ensures cs[k].end == cs[k + 1].start {
      assert cs[k + 1].start <= |text|;
    }
  }

  /** Each chunk starts where the one before ends. */
  predicate BackToBack(cs: seq<Chunk>) {
    forall k :: 0 <= k < |cs| - 1 ==> cs[k].end == cs[k + 1].start
  }

  /** Back-to-back slices from offset 0 concatenate to the text up to the last end. */
  lemma {:induction false} BackToBackTexts(cs: seq<Chunk>, text: string)
    requires ChunkSlices(cs, text) && BackToBack(cs) && cs != [] && cs[0].start == 0
    ensures Texts(cs) == text[..cs[|cs| - 1].end]
    decreases |cs|
  {
    var last := cs[|cs| - 1];
    if |cs| == 1 {
      assert Texts(cs) == Texts([]) + last.text;
    } else {
      var init := cs[..|cs| - 1];
      assert ChunkSlices(init, text) && BackToBack(init);
      BackToBackTexts(init, text);
      assert init[|init| - 1].end == last.start;
      assert text[..last.start] + text[last.start..last.end] == text[..last.end];
    }
  }

  /**
   * With overlap 0, once the last chunk reaches the end of the text (as it
   * does below MaxChunks chunks), BySize's chunk texts concatenate to the input.
   */
  lemma NoOverlapReconstructs(cs: seq<Chunk>, text: string, size: int)
    requires size > 0 && SizeWindows(cs, text, size, size) && cs != []
    requires cs[|cs| - 1].end == |text|
    ensures Texts(cs) == text
  {
    NoOverlapBackToBack(cs, text, size);
    BackToBackTexts(cs, text);
    assert text[..|text|] == text;
  }

  /** The chunk texts, concatenated. */
  function Texts(cs: seq<Chunk>): string {
    if cs == [] then "" else Texts(cs[..|cs| - 1]) + cs[|cs| - 1].text
  }
}
