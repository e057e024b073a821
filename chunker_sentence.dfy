/**
 * BySentence: groups whole sentences into chunks of about size runes. A
 * group takes sentences while they fit (always at least one), and the next
 * group may re-include trailing sentences of this one that fit the overlap
 * budget, but always starts at least one sentence later.
 */
module ChunkerSentence {
  import opened Chunker
  import T = TokenizerTypes
  import Tokenizer
  import Se = TokenizerSentence
  import opened Wrappers

  /** The number of runes of sentences a up to b. */
  function Sum(sents: seq<T.Token>, a: nat, b: nat): nat
    requires a <= b <= |sents|
    decreases b
  {
    if a == b then 0 else Sum(sents, a, b - 1) + |sents[b - 1].text|
  }

  /** Sum seen from the front. */
  lemma {:induction false} SumFront(sents: seq<T.Token>, a: nat, b: nat)
    requires a < b <= |sents|
    ensures Sum(sents, a, b) == |sents[a].text| + Sum(sents, a + 1, b)
    decreases b
  {
    if a + 1 < b {
      SumFront(sents, a, b - 1);
    }
  }

  /** Over a tiling, the runes of sentences a..b are the span from a's start to b-1's end. */
  lemma {:induction false} SumSpan(sents: seq<T.Token>, text: string, a: nat, b: nat)
    requires T.Tiles(sents, text, |text|) && a < b <= |sents|
    ensures Sum(sents, a, b) == sents[b - 1].end - sents[a].start
    decreases b
  {
    if a + 1 < b {
      SumSpan(sents, text, a, b - 1);
    }
  }

  /** The inner accumulation loop: sentences join the group while they fit; the first always does. */
  method GroupEnd(sents: seq<T.Token>, text: string, groupStart: nat, size: int) returns (groupEnd: nat, runeCount: nat)
    requires T.Tiles(sents, text, |text|) && groupStart < |sents|
    ensures groupStart < groupEnd <= |sents| && runeCount == Sum(sents, groupStart, groupEnd)
    ensures groupEnd == groupStart + 1 || runeCount <= size
    ensures groupEnd == |sents| || runeCount + |sents[groupEnd].text| > size
  {
    groupEnd := groupStart;
    runeCount := 0;
    while groupEnd < |sents|
      invariant groupStart <= groupEnd <= |sents| && runeCount == Sum(sents, groupStart, groupEnd)
      invariant groupEnd > groupStart + 1 ==> runeCount <= size
      invariant groupEnd > groupStart ==> runeCount > 0
    {
      var sentRunes := |sents[groupEnd].text|;
      if runeCount > 0 && runeCount + sentRunes > size {
        break;
      }
      runeCount := runeCount + sentRunes;
      groupEnd := groupEnd + 1;
    }
    // The source's fallback for an empty group never fires: the first
    // sentence always joins, whatever its length.
  }

  /** The backward overlap loop: the most trailing sentences of the group that fit the budget. */
  method OverlapSentences(sents: seq<T.Token>, groupStart: nat, groupEnd: nat, overlap: int) returns (count: nat)
    requires groupStart < groupEnd <= |sents|
    ensures count <= groupEnd - groupStart
    ensures Sum(sents, groupEnd - count, groupEnd) <= overlap || count == 0
    ensures count == groupEnd - groupStart || Sum(sents, groupEnd - count - 1, groupEnd) > overlap
  {
    count := 0;
    var overlapRunes := 0;
    var i := groupEnd - 1;
    while i >= groupStart
      invariant groupStart - 1 <= i < groupEnd && count == groupEnd - 1 - i
      invariant overlapRunes == Sum(sents, i + 1, groupEnd)
      invariant count == 0 || overlapRunes <= overlap
      decreases i
    {
      var sentRunes := |sents[i].text|;
      SumFront(sents, i, groupEnd);
      if overlapRunes + sentRunes > overlap {
        break;
      }
      overlapRunes := overlapRunes + sentRunes;
      count := count + 1;
      i := i - 1;
    }
  }

  /** Every group is a non-empty run of sentences. */
  predicate GroupsIn(sents: seq<T.Token>, groups: seq<(nat, nat)>) {
    forall k :: 0 <= k < |groups| ==> groups[k].0 < groups[k].1 <= |sents|
  }

  /**
   * The groups behind the chunks: group k spans sentences groups[k].0 up to
   * groups[k].1, and chunk k runs from the first one's start to the last
   * one's end.
   */
  predicate Spans(chunks: seq<Chunk>, sents: seq<T.Token>, groups: seq<(nat, nat)>)
    requires GroupsIn(sents, groups)
  {
    |groups| == |chunks|
    && forall k :: 0 <= k < |groups| ==>
         chunks[k].start == sents[groups[k].0].start && chunks[k].end == sents[groups[k].1 - 1].end
  }

  /** A group of two or more sentences fits the size; the next sentence would not. */
  predicate Sized(sents: seq<T.Token>, groups: seq<(nat, nat)>, size: int)
    requires GroupsIn(sents, groups)
  {
    forall k :: 0 <= k < |groups| ==>
      (groups[k].1 == groups[k].0 + 1 || sents[groups[k].1 - 1].end - sents[groups[k].0].start <= size)
      && (groups[k].1 == |sents| || sents[groups[k].1 - 1].end - sents[groups[k].0].start + |sents[groups[k].1].text| > size)
  }

  /**
   * Where the group after g may start: next re-includes only trailing
   * sentences of g that fit the overlap budget, none at all without a
   * budget, and as many as fit unless it is already one sentence past g's
   * start.
   */
  predicate Follows(sents: seq<T.Token>, g: (nat, nat), next: nat, overlap: int)
    requires g.0 < next <= g.1 <= |sents|
  {
    (next == g.1 || sents[g.1 - 1].end - sents[next].start <= overlap)
    && (overlap <= 0 ==> next == g.1)
    && (overlap > 0 ==> next == g.0 + 1 || sents[g.1 - 1].end - sents[next - 1].start > overlap)
  }

  /** Each group starts after the previous group's start, no later than its end, where Follows puts it. */
  predicate Advancing(sents: seq<T.Token>, groups: seq<(nat, nat)>, overlap: int)
    requires GroupsIn(sents, groups)
  {
    (groups != [] ==> groups[0].0 == 0)
    && forall k :: 0 <= k < |groups| - 1 ==>
         groups[k].0 < groups[k + 1].0 <= groups[k].1 && Follows(sents, groups[k], groups[k + 1].0, overlap)
  }

  /** Follows pins the next start: two starts it admits after the same group are equal. */
  lemma FollowsUnique(sents: seq<T.Token>, text: string, g: (nat, nat), a: nat, b: nat, overlap: int)
    requires T.Tiles(sents, text, |text|) && g.0 < a <= g.1 <= |sents| && g.0 < b <= g.1
    requires Follows(sents, g, a, overlap) && Follows(sents, g, b, overlap)
    ensures a == b
  {
    if a < b {
      StartsIncrease(sents, text, a, b - 1);
    } else if b < a {
      StartsIncrease(sents, text, b, a - 1);
    }
  }

  /** What bySentence promises of its chunks. */
  predicate Grouped(chunks: seq<Chunk>, text: string, sents: seq<T.Token>, groups: seq<(nat, nat)>, size: int, overlap: int) {
    ChunkSlices(chunks, text) && Indexed(chunks) && |chunks| <= MaxChunks
    && GroupsIn(sents, groups) && Spans(chunks, sents, groups)
    && Sized(sents, groups, size) && Advancing(sents, groups, overlap)
  }

  /** The loop state of bySentence. */
  predicate GroupState(chunks: seq<Chunk>, text: string, sents: seq<T.Token>, groups: seq<(nat, nat)>,
                       size: int, overlap: int, groupStart: nat) {
    Grouped(chunks, text, sents, groups, size, overlap) && groupStart <= |sents|
    && (groups == [] ==> groupStart == 0)
    && (groups != [] ==> groups[|groups| - 1].0 < groupStart <= groups[|groups| - 1].1)
    && (groups != [] && groupStart < |sents| ==> Follows(sents, groups[|groups| - 1], groupStart, overlap))
  }

  /** A group's sentences span a non-empty stretch of the text. */
  lemma GroupSpan(sents: seq<T.Token>, text: string, a: nat, b: nat)
    requires T.Tiles(sents, text, |text|) && a < b <= |sents|
    ensures sents[a].start < sents[b - 1].end <= |text|
  {
    SumSpan(sents, text, a, b);
    SumSpanMono(sents, a, b - 1, b);
    assert Sum(sents, b - 1, b) == |sents[b - 1].text|;
  }

  lemma SpansSnoc(chunks: seq<Chunk>, sents: seq<T.Token>, groups: seq<(nat, nat)>, g: (nat, nat), c: Chunk,
                  chunks': seq<Chunk>, groups': seq<(nat, nat)>)
    requires GroupsIn(sents, groups) && Spans(chunks, sents, groups) && g.0 < g.1 <= |sents|
    requires c.start == sents[g.0].start && c.end == sents[g.1 - 1].end
    requires chunks' == chunks + [c] && groups' == groups + [g]
    ensures GroupsIn(sents, groups') && Spans(chunks', sents, groups')
  {
  }

  lemma SizedSnoc(sents: seq<T.Token>, groups: seq<(nat, nat)>, size: int, g: (nat, nat), groups': seq<(nat, nat)>)
    requires GroupsIn(sents, groups) && Sized(sents, groups, size) && g.0 < g.1 <= |sents|
    requires g.1 == g.0 + 1 || sents[g.1 - 1].end - sents[g.0].start <= size
    requires g.1 == |sents| || sents[g.1 - 1].end - sents[g.0].start + |sents[g.1].text| > size
    requires groups' == groups + [g]
    ensures GroupsIn(sents, groups') && Sized(sents, groups', size)
  {
    assert forall k :: 0 <= k < |groups| ==> groups'[k] == groups[k];
  }

  lemma AdvancingSnoc(sents: seq<T.Token>, groups: seq<(nat, nat)>, overlap: int, g: (nat, nat), groups': seq<(nat, nat)>)
    requires GroupsIn(sents, groups) && Advancing(sents, groups, overlap) && g.0 < g.1 <= |sents|
    requires groups == [] ==> g.0 == 0
    requires groups != [] ==> groups[|groups| - 1].0 < g.0 <= groups[|groups| - 1].1
    requires groups != [] ==> Follows(sents, groups[|groups| - 1], g.0, overlap)
    requires groups' == groups + [g]
    ensures GroupsIn(sents, groups') && Advancing(sents, groups', overlap)
  {
    assert GroupsIn(sents, groups') by {
      assert forall k :: 0 <= k < |groups| ==> groups'[k] == groups[k];
    }
    forall k | 0 <= k < |groups'| - 1
      ensures groups'[k].0 < groups'[k + 1].0 <= groups'[k].1 && Follows(sents, groups'[k], groups'[k + 1].0, overlap)
    {
      assert groups'[k] == groups[k];
      if k + 1 < |groups| {
        assert groups'[k + 1] == groups[k + 1];
      } else {
        assert groups'[k + 1] == g;
      }
    }
  }

  /** The next group's start: after the overlap, but at least one sentence on. */
  lemma NextStart(sents: seq<T.Token>, text: string, groupStart: nat, groupEnd: nat, count: nat, overlap: int, nextStart: nat)
    requires T.Tiles(sents, text, |text|) && groupStart < groupEnd < |sents| && count <= groupEnd - groupStart
    requires overlap <= 0 ==> count == 0
    requires Sum(sents, groupEnd - count, groupEnd) <= overlap || count == 0
    requires overlap > 0 ==> count == groupEnd - groupStart || Sum(sents, groupEnd - count - 1, groupEnd) > overlap
    requires nextStart == if groupEnd - count <= groupStart then groupStart + 1 else groupEnd - count
    ensures groupStart < nextStart <= groupEnd
    ensures Follows(sents, (groupStart, groupEnd), nextStart, overlap)
  {
    if nextStart < groupEnd {
      SumSpan(sents, text, nextStart, groupEnd);
      if nextStart > groupEnd - count {
        SumSpanMono(sents, groupEnd - count, nextStart, groupEnd);
      }
    }
    if overlap > 0 && nextStart > groupStart + 1 {
      SumSpan(sents, text, nextStart - 1, groupEnd);
    }
  }

  /** Dropping sentences from the front does not increase the sum. */
  lemma {:induction false} SumSpanMono(sents: seq<T.Token>, a: nat, b: nat, c: nat)
    requires a <= b <= c <= |sents|
    ensures Sum(sents, b, c) <= Sum(sents, a, c)
    decreases c
  {
    if b < c {
      SumSpanMono(sents, a, b, c - 1);
    }
  }

  /** One pass of bySentence's outer loop: the group from groupStart becomes the next chunk. */
  method EmitGroup(text: string, sents: seq<T.Token>, chunks: seq<Chunk>, ghost groups: seq<(nat, nat)>,
                   size: int, overlap: int, groupStart: nat)
    returns (chunks': seq<Chunk>, ghost groups': seq<(nat, nat)>, groupEnd: nat)
    requires T.Tiles(sents, text, |text|) && groupStart < |sents| && |chunks| < MaxChunks
    requires GroupState(chunks, text, sents, groups, size, overlap, groupStart)
    ensures Grouped(chunks', text, sents, groups', size, overlap)
    ensures groupStart < groupEnd <= |sents| && groups' == groups + [(groupStart, groupEnd)]
  {
    var runeCount;
    groupEnd, runeCount := GroupEnd(sents, text, groupStart, size);
    GroupSpan(sents, text, groupStart, groupEnd);
    SumSpan(sents, text, groupStart, groupEnd);
    var startByte := sents[groupStart].start;
    var endByte := sents[groupEnd - 1].end;
    var c := Chunk(text[startByte..endByte], startByte, endByte, |chunks|);
    ghost var g := (groupStart, groupEnd);
    SlicesSnoc(chunks, text, c, chunks + [c]);
    SpansSnoc(chunks, sents, groups, g, c, chunks + [c], groups + [g]);
    SizedSnoc(sents, groups, size, g, groups + [g]);
    AdvancingSnoc(sents, groups, overlap, g, groups + [g]);
    chunks' := chunks + [c];
    groups' := groups + [g];
  }

  /**
   * Where the next group starts: back by the overlap sentences, but at
   * least one sentence on; nowhere back without a budget or after the last
   * sentence.
   */
  method NextGroupStart(sents: seq<T.Token>, text: string, groupStart: nat, groupEnd: nat, overlap: int) returns (nextStart: nat)
    requires T.Tiles(sents, text, |text|) && groupStart < groupEnd <= |sents|
    ensures groupStart < nextStart <= groupEnd
    ensures overlap <= 0 || groupEnd == |sents| ==> nextStart == groupEnd
    ensures groupEnd < |sents| ==> Follows(sents, (groupStart, groupEnd), nextStart, overlap)
  {
    var count := 0;
    if overlap > 0 && groupEnd < |sents| {
      count := OverlapSentences(sents, groupStart, groupEnd, overlap);
    }
    nextStart := groupEnd - count;
    if nextStart <= groupStart {
      nextStart := groupStart + 1;
    }
    if groupEnd < |sents| {
      NextStart(sents, text, groupStart, groupEnd, count, overlap, nextStart);
    }
  }

  /** bySentence's outer loop over groups of the sentence tokens. */
  method GroupSentences(text: string, sents: seq<T.Token>, size: int, overlap: int)
    returns (chunks: seq<Chunk>, ghost groups: seq<(nat, nat)>)
    requires T.Tiles(sents, text, |text|) && sents != []
    ensures Grouped(chunks, text, sents, groups, size, overlap)
    ensures chunks != []
    ensures |chunks| < MaxChunks ==> groups[|groups| - 1].1 == |sents|
  {
    chunks := [];
    groups := [];
    var groupStart := 0;
    GroupStateEmpty(text, sents, size, overlap);
    while groupStart < |sents| && |chunks| < MaxChunks
      invariant GroupState(chunks, text, sents, groups, size, overlap, groupStart)
      invariant groupStart > 0 ==> chunks != []
      decreases |sents| - groupStart
    {
      chunks, groups, groupStart := GroupStep(text, sents, chunks, groups, size, overlap, groupStart);
    }
    assert GroupsIn(sents, groups);
  }

  lemma GroupStateEmpty(text: string, sents: seq<T.Token>, size: int, overlap: int)
    ensures GroupState([], text, sents, [], size, overlap, 0)
  {
  }

  /** One pass of bySentence's outer loop: emit the group, then move to the next group's start. */
  method GroupStep(text: string, sents: seq<T.Token>, chunks: seq<Chunk>, ghost groups: seq<(nat, nat)>,
                   size: int, overlap: int, groupStart: nat)
    returns (chunks': seq<Chunk>, ghost groups': seq<(nat, nat)>, nextStart: nat)
    requires T.Tiles(sents, text, |text|) && groupStart < |sents| && |chunks| < MaxChunks
    requires GroupState(chunks, text, sents, groups, size, overlap, groupStart)
    ensures GroupState(chunks', text, sents, groups', size, overlap, nextStart)
    ensures groups' != [] && chunks' != [] && groupStart < nextStart
  {
    var groupEnd;
    chunks', groups', groupEnd := EmitGroup(text, sents, chunks, groups, size, overlap, groupStart);
    nextStart := NextGroupStart(sents, text, groupStart, groupEnd, overlap);
  }

  /** Sentences of a tiling start in increasing order. */
  lemma StartsIncrease(sents: seq<T.Token>, text: string, a: nat, b: nat)
    requires T.Tiles(sents, text, |text|) && a <= b < |sents|
    ensures sents[a].start <= sents[b].start
  {
    if a < b {
      SumSpan(sents, text, a, b);
    }
  }

  /**
   * With overlap 0, groups follow each other without re-included sentences,
   * so the chunks lie back to back.
   */
  lemma ZeroOverlapBackToBack(chunks: seq<Chunk>, text: string, sents: seq<T.Token>, groups: seq<(nat, nat)>, size: int)
    requires T.Tiles(sents, text, |text|) && Grouped(chunks, text, sents, groups, size, 0)
    ensures BackToBack(chunks)
    ensures forall k :: 0 <= k < |groups| - 1 ==> groups[k + 1].0 == groups[k].1
  {
    forall k | 0 <= k < |chunks| - 1
      ensures chunks[k].end == chunks[k + 1].start
    {
      assert groups[k + 1].0 == groups[k].1;
    }
  }

  /**
   * With overlap 0, once the last group reaches the last sentence (as it
   * does below MaxChunks chunks), the chunk texts concatenate to the input.
   */
  lemma ZeroOverlapReconstructs(chunks: seq<Chunk>, text: string, sents: seq<T.Token>, groups: seq<(nat, nat)>, size: int)
    requires T.Tiles(sents, text, |text|) && Grouped(chunks, text, sents, groups, size, 0) && chunks != []
    requires groups[|groups| - 1].1 == |sents|
    ensures Texts(chunks) == text
  {
    ZeroOverlapBackToBack(chunks, text, sents, groups, size);
    BackToBackTexts(chunks, text);
    assert text[..|text|] == text;
  }

  /**
   * BySentence: nil for empty text or a size below 1; otherwise the
   * sentence groups of the text, with the overlap clamped into [0, size - 1].
   */
  method BySentence(text: string, size: int, overlap: int)
    returns (chunks: seq<Chunk>, ghost sents: seq<T.Token>, ghost groups: seq<(nat, nat)>)
    ensures chunks == [] <==> text == "" || size <= 0
    ensures chunks != [] ==>
      sents == Se.SentencesOf(text) && Se.SentenceSplit(text, sents)
      && Grouped(chunks, text, sents, groups, size, ClampOverlap(size, overlap))
      && (|chunks| < MaxChunks ==> chunks[|chunks| - 1].end == |text|)
  {
    sents, groups := [], [];
    if text == "" || size <= 0 {
      return [], sents, groups;
    }
    var o := ClampOverlap(size, overlap);
    var r := Tokenizer.SentenceTokens(text);
    if r.None? || r.value == [] {
      return [], sents, groups;
    }
    var sentences := r.value;
    sents := sentences;
    chunks, groups := GroupSentences(text, sentences, size, o);
  }
}
