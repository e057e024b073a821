# az-lang-nlp core, modelled in Dafny

az-lang-nlp is a Go library for Azerbaijani text: it tokenizes text into words
and sentences, chunks it for retrieval, stems and analyses words with a
suffix-stripping state machine, checks and corrects spelling, recognises named
entities and dates, validates text quality, converts between the Latin and
Cyrillic alphabets, restores missing diacritics, extracts keywords, scores
sentiment, and reads numbers out as Azerbaijani words and back. A few dataset
scripts build its dictionaries and lexicons.

This project models that core in Dafny, one module per Go file (or per part
of a file), and proves what each part promises:

- `numtext_*`: cardinal, ordinal and decimal readings of numbers and the
  parser that reads them back (round trip for every value the converter writes).
- `tokenizer*`: the rune scanner (tokens tile the input and concatenate back
  to it) and the sentence splitter with its abbreviation list.
- `chunker*`: chunking by size, by sentence and recursively, with coverage and
  progress guarantees.
- `morph*`: vowel harmony, the suffix table, the backtracking walker (a class
  over rune arrays), the sorted dictionary with binary search, vowel-drop
  restoration and the stemmer.
- `spell*`: delete-variant generation, the optimal string alignment distance,
  the lookup with its insertion sort, and the layered correctness checks.
- `ner*`, `overlaps`: entity passes over abstract regex matches and overlap
  resolution; `datetime*`: date parts, merging, calendar validity and weekday
  arithmetic.
- `validate*`: the four checks with their per-check cap, the sort and the score.
- `azcase*`, `translit*`, `normalize*`: Azerbaijani case mapping, NFC
  composition, transliteration and diacritic restoration by bitmask search.
- `keywords*`, `sentiment_lexicon`: the keyword pipeline and co-occurrence
  graph, and lexicon parsing with negation-aware counting.
- `extract_reviews`, `build_lexicon`, `dictgen`: the review-cleaning script and
  the dictionary and lexicon helper rules.
- Shared helpers: `unicode` (character classes and Go's strings helpers),
  `goint` (int64 wrap-around, strconv), `goenum`, `seqs`, `sorting`, `strorder`,
  `wrappers`.

Text is `seq<char>`, one element per rune. Methods that loop in the source are
methods with loop invariants, proved against functions that state what they
compute; the properties are lemmas about those functions.

## Model

| member | source | states |
|---|---|---|
| AzCase.Lower | internal/azcase/case.go:20-30 | I lower-cases to dotless ı, İ to i, and no result is an upper-case rune |
| AzCase.Upper | internal/azcase/case.go:32-42 | i upper-cases to dotted İ, ı to I, and every result is its own upper case |
| AzCase.AlphabetRoundTrip | internal/azcase/case.go:1-9 | on each of the 32 letters of the Azerbaijani alphabet, Upper maps the small letter to its capital and Lower maps it back |
| AzCase.ToLower | internal/azcase/case.go:44-52 | same rune count, each rune lower-cased by Lower, and no upper-case rune remains |
| AzCase.ToUpper | internal/azcase/case.go:54-62 | same rune count, each rune upper-cased by Upper, and every rune is its own upper case |
| AzCase.LowerUpperOnAlphabet | internal/azcase/case.go:1-42 | lower-casing the upper case of an alphabet letter gives the letter back |
| AzCase.ToLowerToUpper | internal/azcase/case.go:44-62 | ToLower undoes ToUpper on every lower-case alphabet word |
| AzCase.UpperFirst | internal/azcase/case.go:64-75 | only the first rune changes, to its upper case; empty text stays empty |
| AzCase.CaseClasses | internal/azcase/case.go:77-108 | a text of at most one rune and an all-capitals text are never title case, and a text without letters is never all capitals |
| AzCase.ApplyCase | internal/azcase/case.go:110-124 | the corrected word keeps its length and takes the original's pattern: all capitals, capitalised first rune, or unchanged; an empty side leaves it as is |
| AzCase.ApplyCaseOnlyCase | internal/azcase/case.go:110-124 | applying a case pattern to a lower-case alphabet word changes nothing but case |
| AzCaseNfc.ComposedIsFinal | internal/azcase/nfc.go:5-20 | every pair in the table is a base and a combining mark, and the rune it composes to is neither a mark nor the base of another pair |
| AzCaseNfc.Replace | internal/azcase/nfc.go:5-20 | the replacer never lengthens the text, and its first rune is the composed rune when the text opens with a listed pair |
| AzCaseNfc.ReplaceNoPair | internal/azcase/nfc.go:5-20 | the replacer's output holds no listed pair |
| AzCaseNfc.ReplaceFixesPairFree | internal/azcase/nfc.go:5-20 | text holding no listed pair passes through the replacer unchanged |
| AzCaseNfc.NoCombinerNoPair | internal/azcase/nfc.go:26-35 | text with none of the four combining marks holds no listed pair |
| AzCaseNfc.ComposeNFC | internal/azcase/nfc.go:22-40 | text without combining marks is returned as is, and the result never holds a listed pair |
| AzCaseNfc.PairComposes | internal/azcase/nfc.go:5-40 | a listed base-and-mark pair composes to its precomposed letter; an unlisted pair is left alone |
| AzCaseNfc.ComposeIdempotent | internal/azcase/nfc.go:22-40 | composing twice gives the same text as composing once |
| BuildLexicon.ScoreToClass | scripts/buildlexicon.go:250-261 | a rating is negative exactly when at most 2, positive exactly when at least 4, and neutral exactly when 3 |
| BuildLexicon.ClassCountsTotal | scripts/buildlexicon.go:324-337 | the positive, negative and neutral counts add up to the number of reviews |
| BuildLexicon.CountClasses | scripts/buildlexicon.go:324-337 | each count is the number of reviews of that class, and the three add up to the number of reviews |
| BuildLexicon.NonEmpty | scripts/buildlexicon.go:275-277 | keeps exactly the non-empty stems |
| BuildLexicon.ReviewStemsShape | scripts/buildlexicon.go:262-286 | a review's stems are distinct and are exactly the non-empty stems of its words |
| BuildLexicon.ReviewStemsStep | scripts/buildlexicon.go:268-284 | one more word appends its stem when that stem is non-empty and not yet seen, and changes nothing otherwise |
| BuildLexicon.StemsAppend | scripts/buildlexicon.go:275-283 | the seen-set test: a new non-empty stem is appended to the distinct list, anything else leaves it |
| BuildLexicon.ExtractStems | scripts/buildlexicon.go:262-286 | the distinct non-empty stems, in order of first occurrence, of the scanner's words of the NFC-composed text |
| BuildLexicon.LexHitsNone | scripts/buildlexicon.go:298-311 | no stem is scored exactly when none of them is in the lexicon |
| BuildLexicon.PredictClass | scripts/buildlexicon.go:298-322 | neutral when no stem is in the lexicon; positive exactly when some stem is scored and the sum of scores is positive; negative exactly when it is negative |
| BuildLexicon.PredictNoHits | scripts/buildlexicon.go:298-314 | a review none of whose stems is in the lexicon has no scored stem and is predicted neutral |
| Chunker.ClampOverlap | chunker/chunker.go:65-75 | a negative overlap becomes 0, one of at least size becomes size - 1, and anything in between is kept, so for a positive size the result lies in [0, size) |
| Chunker.Step | chunker/chunker.go:104-107 | the window step is size - overlap but never below 1, and never above size for a non-negative overlap |
| Chunker.BuildRuneOffsets | chunker/chunker.go:140-151 | one entry per rune plus one; entry i is the UTF-8 byte length of the first i runes and the last entry is the byte length of the text |
| Chunker.OffsetsIncrease | chunker/chunker.go:140-151 | the byte offsets of successive runes strictly increase |
| Chunker.FullWindows | chunker/chunker.go:115-135 | windows that are all full-size slices starting step runes apart have the bySize shape |
| Chunker.MergeTail | chunker/chunker.go:118-124 | folding a short trailing window into the last chunk keeps the bySize shape and makes the last chunk end at the end of the text |
| Chunker.SameStarts | chunker/chunker.go:110-134 | two stepped lists from offset 0 agree on the start of every window both have |
| Chunker.NextStart | chunker/chunker.go:134 | a longer stepped list has its next window step runes after the shorter one's last |
| Chunker.NoLonger | chunker/chunker.go:112-135 | no list of the bySize shape runs on past one that has stopped |
| Chunker.SizeWindowsUnique | chunker/chunker.go:112-135 | with a step of at most size, two non-empty lists of the bySize shape over the same text are equal, so the loop cannot stop early or run on |
| Chunker.WindowAfter | chunker/chunker.go:134 | each window starts step runes after the one before |
| Chunker.NoWindowPast | chunker/chunker.go:112 | a window whose successor would start at or past the end of the text is the last one |
| Chunker.TailOfTenKept | chunker/chunker.go:115-122 | over 40 runes with size 30 and step 15 the windows are [0, 30), [15, 40) and [30, 40): a tail of exactly 10 runes is kept as a window, not folded |
| Chunker.BySizeWindows | chunker/chunker.go:88-138 | no chunk for an empty text or a size below 1 and at least one otherwise; indexed slices starting step runes apart from 0, each size runes or cut at the end of the text, none after the first shorter than min(10, size), at most 10000; below 10000 the last reaches the end of the text and the windows stop only where the next start is past the text or the short tail from there was folded into the last window, a shape that admits one list (SizeWindowsUnique) |
| Chunker.BySize | chunker/chunker.go:77-86 | nil exactly for empty text or a size below 1; otherwise the one list of the bySize shape with the clamped overlap |
| Chunker.NoOverlapBackToBack | chunker/chunker.go:104-135 | with overlap 0 each window starts where the previous one ends |
| Chunker.BackToBackTexts | chunker/chunker.go:43-52 | back-to-back chunk slices from offset 0 concatenate to the text up to the last chunk's end |
| Chunker.NoOverlapReconstructs | chunker/chunker.go:77-138 | with overlap 0 and fewer than 10000 chunks, the chunk texts concatenate to the input |
| ChunkerRecursive.IndexSep | chunker/recursive.go:108-110 | the first "\n\n" at or after the search position (FirstSep), or -1 when there is none; no separator lies before it |
| ChunkerRecursive.FirstSep | chunker/recursive.go:108-110 | the index found is -1 or a separator at or after the search position |
| ChunkerRecursive.FirstSepFirst | chunker/recursive.go:108-110 | no separator lies between the search position and the one FirstSep finds, and none at all when it finds -1 |
| ChunkerRecursive.FirstSepAt | chunker/recursive.go:108-114 | the separator that closes a paragraph piece is the first one at or after the piece's start |
| ChunkerRecursive.ParagraphsRest | chunker/recursive.go:109-118 | with no separator left, the split from pos is the rest, when it is not empty |
| ChunkerRecursive.ParagraphsNext | chunker/recursive.go:108-114 | a separator at idx adds the piece up to its end and the split goes on after it |
| ChunkerRecursive.ParagraphsWithin | chunker/recursive.go:103-120 | the paragraph pieces lie inside the fragment |
| ChunkerRecursive.ParagraphsPrefix | chunker/recursive.go:106-115 | pieces that cover the fragment up to pos, each ending after its first separator, are the first pieces of the paragraph split, and the split from pos completes them |
| ChunkerRecursive.ParagraphCuts | chunker/recursive.go:104-115 | the loop's pieces cover the fragment up to pos without gaps, each ends right after the first separator from its start, and no separator starts at or after pos |
| ChunkerRecursive.SplitByParagraph | chunker/recursive.go:101-120 | the pieces are exactly the paragraph split of the fragment's text: one piece per separator, ending right after it, then the rest when it is not empty; they cover the fragment without gaps or overlaps |
| ChunkerRecursive.SplitByTokens | chunker/recursive.go:122-137 | fewer than two tokens give the fragment itself; otherwise exactly one piece per token, its span shifted by the fragment's start, covering the fragment when the tokens cover its text |
| ChunkerRecursive.Shifted | chunker/recursive.go:129-135 | one piece per token, each the token's span moved by the fragment's start |
| ChunkerRecursive.SplitByRune | chunker/recursive.go:139-156 | exactly the pieces of size runes from the fragment's start, the last one shorter, until the end or 10000 pieces: adjacent, inside the fragment, every piece but the last exactly size runes and none longer, covering the fragment below the cap and never empty for a non-empty fragment |
| ChunkerRecursive.RuneStep | chunker/recursive.go:148-154 | one iteration of the rune loop extends the cover by a piece of size runes, or of the remaining runes at the end |
| ChunkerRecursive.RunesNext | chunker/recursive.go:148-154 | one iteration of the rune loop appends the next piece and goes on from its end |
| ChunkerRecursive.CuttingNext | chunker/recursive.go:148-154 | one iteration keeps the loop state: a cover up to the position by full pieces, with the rest of the pieces still to come |
| ChunkerRecursive.CuttingDone | chunker/recursive.go:148-156 | when the loop stops its pieces are all the rune pieces, inside the fragment, adjacent, at most size runes, and covering the fragment below the cap |
| ChunkerRecursive.Concatenated | chunker/recursive.go:86-96 | ordered pieces of two consecutive spans are ordered pieces of their union |
| ChunkerRecursive.ConcatenatedTiles | chunker/recursive.go:86-96 | covers of two consecutive spans concatenate to a cover of their union |
| ChunkerRecursive.SplitFragment | chunker/recursive.go:61-99 | exactly the recursive split: the fragment itself when it fits, pieces of size runes at the rune level, the next level down when this level gives at most one part, and otherwise every part, oversized ones split one level down; the pieces are non-empty, ordered, inside the fragment and at most size runes, and below 10000 pieces they cover it |
| ChunkerRecursive.SplitParts | chunker/recursive.go:87-98 | the loop's pieces are exactly each part kept when it fits and split one level down otherwise, in order; ordered, inside the fragment, at most size runes, covering it below 10000 pieces |
| ChunkerRecursive.PartsWithin | chunker/recursive.go:70-79 | the parts of a fragment at each level lie inside it |
| ChunkerRecursive.LevelParts | chunker/recursive.go:70-76 | the level's parts: the paragraph split at level 0, one piece per sentence token at 1 and per word token at 2, covering the fragment |
| ChunkerRecursive.SplitAllSnoc | chunker/recursive.go:89-96 | one more part appends its own pieces: itself when it fits, else its split one level down |
| ChunkerRecursive.SplitOfParts | chunker/recursive.go:64-86 | above size and above the rune level, the split is the next level's when the level gives at most one part, and otherwise that of all the parts |
| ChunkerRecursive.PartStep | chunker/recursive.go:89-96 | one part keeps the loop invariant: the pieces so far are those of the parts so far, ordered, small and covering |
| ChunkerRecursive.SplitPart | chunker/recursive.go:90-95 | a part that fits is kept as is; a larger one is split one level down into ordered pieces of at most size runes inside it |
| ChunkerRecursive.AppendCut | chunker/recursive.go:166-172 | appending a new group boundary keeps the boundaries increasing and every piece but the first at least 10 runes, and no piece could have taken its next fragment within size |
| ChunkerRecursive.EmitAppend | chunker/recursive.go:166-169 | emit appending a group of at least 10 runes, or the first group, keeps the merge invariant |
| ChunkerRecursive.FoldHeavy | chunker/recursive.go:170-172 | folding a short group into the last piece keeps every piece after the first at least 10 runes |
| ChunkerRecursive.FoldSaturated | chunker/recursive.go:170-172 | folding a short group into the last piece keeps every piece unable to take its next fragment within size |
| ChunkerRecursive.EmitFold | chunker/recursive.go:170-172 | emit extending the last piece to the group's end keeps the merge invariant |
| ChunkerRecursive.Emit | chunker/recursive.go:168-174 | closes the current group, which fits size or is one fragment and cannot take its next fragment; the groups stay the greedy ones, the current group opens a new piece exactly when it is the first or has at least 10 runes (otherwise it extends the last piece), and the last boundary is the current position |
| ChunkerRecursive.MergeFragments | chunker/recursive.go:158-191 | no fragments give no pieces; otherwise the groups are the greedy ones (each one fragment or within size, closed only when the next fragment would pass size, the last ending at the last fragment), a group opens a piece exactly when it is the first or has at least 10 runes, and the pieces are merged from those groups |
| ChunkerRecursive.OpenedPrefix | chunker/recursive.go:168-174 | whether a group opens a piece depends only on that group and the ones before it |
| ChunkerRecursive.CloseGroup | chunker/recursive.go:168-174 | closing the current group adds one boundary and opens a piece exactly when it is the first group or has at least 10 runes |
| ChunkerRecursive.GrowGroup | chunker/recursive.go:177-181 | adding the next fragment adds its runes to the group, which still fits when the sum is within size |
| ChunkerRecursive.GreedyStep | chunker/recursive.go:176-187 | two group ends from the same start that both fit and are full are equal |
| ChunkerRecursive.LaterEndPasses | chunker/recursive.go:179-183 | a group reaching past a full group's end has more than size runes |
| ChunkerRecursive.GreedyAgree | chunker/recursive.go:176-187 | two greedy runs over the same fragments agree on every boundary both have |
| ChunkerRecursive.NoBoundaryPast | chunker/recursive.go:176-189 | a greedy run that agrees with a longer list of boundaries has already reached the last fragment |
| ChunkerRecursive.GreedyUnique | chunker/recursive.go:176-189 | the greedy groups of a list of fragments are unique, so the merge is fixed by the fragments and size |
| ChunkerRecursive.GroupsWithinSize | chunker/recursive.go:176-187 | over fragments of at most size runes, every group has at most size runes |
| ChunkerRecursive.TwoFullFragments | chunker/recursive.go:176-189 | two fragments of 300 runes with size 512 stay two pieces: the first group closes before the second fragment and both groups open pieces |
| ChunkerRecursive.MergingStart | chunker/recursive.go:164-166 | the loop state holds before the loop, with the first fragment as the current group |
| ChunkerRecursive.MergingGrow | chunker/recursive.go:179-181 | a fragment that fits joins the current group and keeps the loop state |
| ChunkerRecursive.MergingNext | chunker/recursive.go:183-185 | after emit, fragment i starts the next group and the loop state holds |
| ChunkerRecursive.MergeStep | chunker/recursive.go:176-187 | one iteration keeps the loop state one fragment further on |
| ChunkerRecursive.OrderedMonotone | chunker/recursive.go:158-191 | among ordered fragments, later ones start and end no earlier |
| ChunkerRecursive.FragSumSpan | chunker/recursive.go:174-184 | over adjacent fragments, a group's rune count is the distance from its first start to its last end |
| ChunkerRecursive.MergedWithin | chunker/recursive.go:158-191 | merging ordered fragments inside a span gives ordered pieces inside it |
| ChunkerRecursive.MergedTiles | chunker/recursive.go:158-191 | merging fragments that cover a span gives pieces that cover it |
| ChunkerRecursive.MergedRunes | chunker/recursive.go:174-184 | each merged piece has as many runes as its group of fragments together |
| ChunkerRecursive.WalkBackRunes | chunker/recursive.go:226-241 | the position stays put when already at or before the limit; otherwise it moves back at most n runes, never past the limit, and stops only at the limit or after n runes |
| ChunkerRecursive.OverlapTowards | chunker/recursive.go:193-224 | one chunk per merged fragment up to 10000, indexed in order, each the text slice ending at its fragment's end and starting at its fragment's start walked back by the overlap towards the given limit |
| ChunkerRecursive.ApplyOverlap | chunker/recursive.go:193-224 | the chunks walk back towards the previous fragment's end, so none reaches into its predecessor, and over adjacent fragments every chunk starts exactly at its fragment whatever the overlap |
| ChunkerRecursive.OverlapNoOpAsWritten | chunker/recursive.go:210-213 | with the previous fragment's end as limit, a chunk never starts before that end, and over adjacent fragments it starts at its own fragment |
| ChunkerRecursive.ApplyOverlapIntended | chunker/recursive.go:193-224 | the chunks walk back towards the previous fragment's start, the reading the comment at the call describes |
| ChunkerRecursive.OverlapApplied | chunker/recursive.go:209-213 | with the intended limit and a positive overlap, each chunk after the first takes the last min(overlap, previous length) runes of the previous fragment, and chunk starts never decrease |
| ChunkerRecursive.StartsBefore | chunker/recursive.go:209-213 | no chunk starts after its fragment |
| ChunkerRecursive.Recursive | chunker/recursive.go:13-35 | nil exactly for empty text or a size below 1; otherwise the fragments are exactly the recursive split of the whole text, ordered, inside it and at most size runes; the groups are the unique greedy ones and the merged pieces are built from them; one chunk per merged piece up to 10000 with the clamped overlap applied as written; below 10000 fragments the pieces cover the text, the last chunk ends at its end and the chunk texts concatenate to it |
| ChunkerRecursive.CutsBound | chunker/recursive.go:158-191 | there are never more merged pieces than fragments |
| ChunkerRecursive.Reconstructs | chunker/recursive.go:193-224 | over pieces that cover the text, the chunk texts concatenate to it when the limit is the previous piece's end, or when the overlap is not positive |
| ChunkerRecursive.Chunks | chunker/chunker.go:153-165 | nil exactly for empty text; otherwise the texts of the chunks Recursive returns with size 512 and overlap 50, each a slice of the input |
| ChunkerRecursive.MergedFew | chunker/recursive.go:158-191 | there are never more merged pieces than fragments |
| ChunkerRecursive.FullCover | chunker/recursive.go:193-224 | below the chunk cap there is one chunk per merged piece, the last ending at the end of the text, and over covering pieces the chunk texts rebuild the text |
| ChunkerRecursive.ChunksAtPieces | chunker/recursive.go:209-213 | over adjacent pieces each chunk spans exactly its own piece, because the walk back as written stops at the previous piece's end |
| ChunkerRecursive.ChunkTexts | chunker/chunker.go:160-164 | one text per chunk, in order |
| ChunkerSentence.SumFront | chunker/sentence.go:44-51 | the rune count of a run of sentences is the first one's count plus the rest's |
| ChunkerSentence.SumSpan | chunker/sentence.go:58-59 | over sentence tokens that tile the text, the rune count of a run is the span from its first start to its last end |
| ChunkerSentence.GroupEnd | chunker/sentence.go:41-56 | the group takes at least one sentence; a group of two or more fits the size, and it stops only at the last sentence or when the next one would pass the size |
| ChunkerSentence.OverlapSentences | chunker/sentence.go:71-82 | the trailing sentences taken back fit the overlap budget, and taking one more would pass it unless the whole group was taken |
| ChunkerSentence.GroupSpan | chunker/sentence.go:58-66 | a group's chunk is a non-empty slice of the text |
| ChunkerSentence.NextStart | chunker/sentence.go:84-88 | the next group starts after this group's start and no later than its end, and the runes it re-includes fit the overlap |
| ChunkerSentence.SumSpanMono | chunker/sentence.go:74-81 | dropping sentences from the front of a run never increases its rune count |
| ChunkerSentence.EmitGroup | chunker/sentence.go:40-66 | one outer pass appends the chunk spanning the group's sentences, keeping the bySentence invariant |
| ChunkerSentence.NextGroupStart | chunker/sentence.go:68-88 | the next group starts after this group's start and no later than its end; exactly at the end when the overlap is not positive or the last sentence was reached; otherwise it walks back over as many trailing sentences as fit the overlap budget and stops where one more would pass it, unless it reached the sentence after the group's start |
| ChunkerSentence.FollowsUnique | chunker/sentence.go:68-86 | the overlap rule admits exactly one next start after a given group |
| ChunkerSentence.GroupSentences | chunker/sentence.go:36-91 | the chunks are indexed slices spanning groups of consecutive sentences that fit the size, the first starting at sentence 0 and each next one starting at the one start the overlap walk-back admits; below 10000 chunks the last group ends at the last sentence |
| ChunkerSentence.GroupStateEmpty | chunker/sentence.go:36-37 | the loop state before any group holds |
| ChunkerSentence.GroupStep | chunker/sentence.go:39-89 | one outer pass keeps the loop state, appends a chunk and a group, and moves the group start forward within the overlap budget |
| ChunkerSentence.StartsIncrease | chunker/sentence.go:58-59 | over a tiling, later sentences start no earlier |
| ChunkerSentence.ZeroOverlapBackToBack | chunker/sentence.go:68-88 | with overlap 0 each group starts at the previous group's end, so the chunks lie back to back |
| ChunkerSentence.ZeroOverlapReconstructs | chunker/sentence.go:30-92 | with overlap 0 and the last group reaching the last sentence, the chunk texts concatenate to the input |
| ChunkerSentence.BySentence | chunker/sentence.go:21-27 | nil exactly for empty text or a size below 1; otherwise the chunks group exactly the sentence splitter's tokens as bySentence promises with the overlap clamped, and below 10000 chunks the last ends at the end of the text |
| Datetime.ExtractFrom | datetime/patterns.go:22-41 | nothing exactly when the passes find nothing; otherwise exactly the merge of a resolution of the candidates (greedy keep-first in result order, capped), so results are in order and apart, each a candidate or the merge of two, the first starting no later than any candidate |
| Datetime.Extract | datetime/datetime.go:140-151 | nil for empty text or text over the byte limit; otherwise, with the passes run against the given moment or now for the zero time, nothing exactly when they find nothing, and else exactly the merged resolution of their candidates |
| Datetime.Parse | datetime/datetime.go:153-171 | the error "datetime: empty input", "datetime: input exceeds N bytes" or "datetime: unrecognized input" in those cases; otherwise the first element of the merged resolution of the candidates |
| GoEnum.Name | datetime/datetime.go:53-59 | a value inside the table prints its name; any other prints the type name, "(" and the number, ending in ")" |
| GoEnum.NameInjective | datetime/datetime.go:37-59 | with distinct table names none of which looks like the fallback, different int values print differently |
| DatetimeTypes.TypeNamesOk | datetime/datetime.go:37-43 | the four type names are distinct and none looks like the Type(n) fallback |
| DatetimeTypes.TypeStringInjective | datetime/datetime.go:53-59 | different type values print differently |
| DatetimeTypes.Bits | datetime/datetime.go:84-96 | the six component flags, in YMDhms order |
| DatetimeTypes.ComponentsStringSix | datetime/datetime.go:97-122 | the debug form is the letters of the set flags in YMDhms order, or "none" when no flag is set |
| DatetimeTypes.ComponentsStringListed | datetime/datetime.go:97-122 | the debug form lists exactly the letters of the set flags in the fixed order, and is "none" exactly when no flag is set |
| DatetimeTypes.ComponentsStringFlags | datetime/datetime.go:97-122 | each of Y, M, D, h, m and s appears in the debug form exactly when its flag is set |
| DatetimeTypes.SixLetter | datetime/datetime.go:99-116 | letter k is listed exactly when flag k is set |
| DatetimeTypes.LetterNotNone | datetime/datetime.go:117-121 | no component letter occurs in "none", so the two forms cannot be confused |
| Calendar.DaysIn | datetime/patterns.go:140-145 | a month has 28 to 31 days, and 29 exactly for February of a leap year |
| Calendar.NextDay | datetime/patterns.go:679-680 | the day after a valid date is a valid date |
| Calendar.PrevDay | datetime/patterns.go:689-690 | the day before a valid date is a valid date |
| Calendar.AddDays | datetime/patterns.go:679-690 | AddDate(0, 0, n) on a valid date gives a valid date |
| Calendar.Weekday | datetime/patterns.go:668-670 | every date has a weekday from 0 (Sunday) to 6 |
| Calendar.WeekdayOf | datetime/patterns.go:668-670 | every day number has a weekday from 0 to 6 |
| Calendar.YearOfMonths | datetime/patterns.go:140-145 | the twelve month lengths add up to the year's length |
| Calendar.NextDayNumber | datetime/patterns.go:679-680 | the next day's number is one more |
| Calendar.PrevDayNumber | datetime/patterns.go:689-690 | the previous day's number is one less |
| Calendar.AddDaysNumber | datetime/patterns.go:679-690 | moving n days moves the day number by exactly n |
| Calendar.AddDaysWeekday | datetime/patterns.go:668-690 | moving n days advances the weekday by n modulo 7 |
| Calendar.AddDaysAdd | datetime/patterns.go:679-690 | moving a days and then b days is moving a + b days |
| Calendar.AddDaysInMonth | datetime/patterns.go:140-145 | within a month, moving k days from the first lands on day k + 1 |
| Calendar.Normalize | datetime/patterns.go:137-145 | time.Date with a day past the month's end carries into the next month and always gives a valid date |
| Calendar.NormalizeKeeps | datetime/patterns.go:137-145 | the normalised date keeps the day and month exactly when that day exists in that month, which is how impossible dates such as 30 February are rejected |
| Calendar.NextOffset | datetime/patterns.go:668-678 | nextWeekday moves 0 to 7 days to land on the wanted weekday, 7 exactly when today matches and today is skipped |
| Calendar.PrevOffset | datetime/patterns.go:684-688 | prevWeekday moves back 1 to 7 days to land on the wanted weekday, never 0 |
| Calendar.NextOffsetFirst | datetime/patterns.go:668-678 | fewer steps than the offset never reach the wanted weekday |
| Calendar.PrevOffsetLast | datetime/patterns.go:684-688 | fewer steps back than the offset never reach the wanted weekday |
| Calendar.NextWeekdayFirst | datetime/patterns.go:665-682 | nextWeekday falls on the wanted weekday and is the first such day from today, or from tomorrow when today is skipped |
| Calendar.DayMiss | datetime/patterns.go:668-690 | a day whose weekday offset misses the wanted weekday does not fall on it |
| Calendar.PrevWeekdayLast | datetime/patterns.go:684-692 | prevWeekday falls on the wanted weekday 1 to 7 days back, and no day between it and the reference does |
| DatetimePatterns.DigitsValueBound | datetime/patterns.go:838-847 | a string of n decimal digits reads as a value below 10 to the n |
| DatetimePatterns.ParseBareNumberRange | datetime/patterns.go:826-835 | parseBareNumber accepts exactly the one- or two-byte words strconv.Atoi reads, with values from -9 to 99 |
| DatetimePatterns.AsciiByteLen | datetime/patterns.go:826-835 | a word strconv.Atoi accepts is ASCII, so its byte length is its length |
| DatetimePatterns.Parse4DigitYear | datetime/patterns.go:838-847 | an accepted year lies between the smallest and the largest year allowed |
| DatetimePatterns.ParseIntSigned | datetime/patterns.go:838-847 | a signed number of length n is below 10 to the n - 1 in magnitude |
| DatetimePatterns.ParseIntAscii | datetime/patterns.go:838-847 | what strconv.Atoi accepts is an ASCII sign and digits, and without a sign its value is the digits' value |
| DatetimePatterns.Parse4DigitYearDigits | datetime/patterns.go:838-847 | with a four-digit smallest year, an accepted year is exactly four decimal digits read as their value |
| DatetimePatterns.IndexOf | datetime/patterns.go:862-863 | strings.IndexByte: the first position of the byte, or -1 exactly when it does not occur |
| DatetimePatterns.ParseNumberWithSuffixRange | datetime/patterns.go:851-868 | a number with a suffix is the whole word or the part before its first hyphen, from -9 to 99 |
| DatetimePatterns.SuffixedHour | datetime/patterns.go:851-868 | "3-də" reads as 3 |
| DatetimePatterns.ParseDatePartsExact | datetime/patterns.go:127-148 | a date is accepted exactly when its parts parse, the year is in range and the day exists in that month of that year, and the result is that date |
| DatetimePatterns.PartsRead | datetime/patterns.go:127-136 | two-digit days and months and four-digit years read as their values |
| DatetimePatterns.NoThirtiethOfFebruary | datetime/patterns.go:137-145 | 30.02 is rejected even in a leap year |
| DatetimePatterns.NoThirtyFirstOfApril | datetime/patterns.go:137-145 | 31.04 is rejected |
| DatetimePatterns.NoLeapDay | datetime/patterns.go:137-145 | 29.02 is rejected in a common year |
| DatetimePatterns.LeapDay | datetime/patterns.go:137-148 | 29.02 is accepted in a leap year |
| DatetimePatterns.SaatUpTo | datetime/patterns.go:322-379 | the pass keeps one used flag per word |
| DatetimePatterns.SaatAtShape | datetime/patterns.go:326-377 | one step only sets flags; a time it finds is on the reference day at an hour of the clock and spans from the unused "saat" or the word before it to the number word after it, both now used |
| DatetimePatterns.NoonStays | datetime/patterns.go:353-362 | "axşam saat 12" stays at 12 o'clock and starts at the evening word |
| DatetimePatterns.FoundBefore | datetime/patterns.go:326-377 | a time found at an unused word comes after every time found before it |
| DatetimePatterns.SaatOrdered | datetime/patterns.go:322-379 | the times the pass finds never overlap and come in text order |
| DatetimePatterns.SaatFound | datetime/patterns.go:322-379 | every time found is a slice of the input at an hour of the clock on the reference day, flagged with an explicit hour, and flags once set stay set |
| DatetimePatterns.SaatTimeAt | datetime/patterns.go:326-377 | one pass of the loop sets the flags and finds the time SaatAt describes |
| DatetimePatterns.AppendSaatTime | datetime/patterns.go:322-379 | the method appends exactly the times the pass defines and leaves the shared flags as the pass sets them |
| DatetimePatterns.ResultOrderOk | datetime/patterns.go:576-602 | the sort order resolveOverlaps uses is a preorder that puts earlier starts first |
| DatetimePatterns.ResolveOverlaps | datetime/patterns.go:576-602 | at most maxResults results, all from the input, disjoint, in start order, each the longest at its start; zero or one result come back unchanged |
| DatetimePatterns.ResolvedOrdered | datetime/patterns.go:576-602 | kept results are in start order, do not overlap and come from the input |
| DatetimePatterns.UnionHas | datetime/patterns.go:651 | a component flag of a union is set exactly when it is set in either part |
| DatetimePatterns.TryMergeWhen | datetime/patterns.go:632-641 | only a date next to a time merges, in either order |
| DatetimePatterns.TryMergeSpan | datetime/patterns.go:643-661 | the merge is a date-time slice covering both, dated by the date and timed by the time |
| DatetimePatterns.TryMergeExplicit | datetime/patterns.go:651 | a component is explicit in the merge exactly when it is explicit in either part |
| DatetimePatterns.Step | datetime/patterns.go:612-626 | the first merged result takes up one or two results |
| DatetimePatterns.MergedUnfold | datetime/patterns.go:612-626 | one step of the walk merges results i and i + 1 when they are 0 to maxGap apart and merge, and otherwise keeps result i |
| DatetimePatterns.HeadSpan | datetime/patterns.go:612-626 | in ordered input the first merged result runs from the first start to the end of the last result it takes up |
| DatetimePatterns.MergedFrom | datetime/patterns.go:606-629 | every merged result is an input result or the merge of two neighbours; there are at most as many, and none only when there were none |
| DatetimePatterns.MergedNoDate | datetime/patterns.go:606-629 | without a date nothing merges and the results come back unchanged |
| DatetimePatterns.MergedOrdered | datetime/patterns.go:606-629 | merging keeps results in start order, and the first starts where the first input started |
| DatetimePatterns.MergedSlices | datetime/patterns.go:606-629 | merged results are slices of the input |
| DatetimePatterns.MergeAdjacent | datetime/patterns.go:606-629 | the loop computes exactly the merged list the walk defines |
| DatetimePatterns.MergeStep | datetime/patterns.go:612-626 | one pass of the loop yields the merge of results i and i + 1 or result i, and advances by one or two |
| Dictgen.MapPOS | cmd/dictgen/main.go:166-181 | affix and character tags are skipped, noun-like tags give N, verb V, adjective A, adverb-like tags D and every other tag X, each exactly in its case |
| Dictgen.IsAcceptable | cmd/dictgen/main.go:186-211 | the loop accepts a word exactly when the acceptability predicate on its length and runes holds |
| Dictgen.IsValidStem | cmd/dictgen/main.go:230-240 | the loop accepts a stem exactly when it is long enough and has a vowel |
| Dictgen.StripInfinitive | cmd/dictgen/main.go:216-226 | the result is the word itself or the word without -maq or -mək leaving a valid stem, and such a stem is always taken, -maq first |
| Dictgen.KeyShape | cmd/dictgen/main.go:69-89 | every key is a category letter N, V, A, D or X followed by a lemma of at least two runes |
| Dictgen.CollectKeys | cmd/dictgen/main.go:61-90 | the scan loop's set is exactly the keys of the lines that yield one |
| Dictgen.KeysSnoc | cmd/dictgen/main.go:61-90 | one more line adds its key, if it has one, and nothing else |
| Dictgen.Restored | cmd/dictgen/main.go:307-318 | consonant restoration changes only the last rune of the stem |
| Dictgen.IsInflected | cmd/dictgen/main.go:278-326 | the check of one key answers exactly whether it is an inflected noun whose base is in the set |
| Dictgen.FilterInflected | cmd/dictgen/main.go:262-331 | the kept keys are exactly those of the original set that are not inflected, every check reading the original set |
| Dictgen.DroppedHaveBase | cmd/dictgen/main.go:278-326 | only noun keys are dropped, and each has a shorter base noun of at least two runes in the set |
| Dictgen.CollectInflected | cmd/dictgen/main.go:277-327 | the keys gathered for deletion are exactly the inflected noun keys of the set |
| Dictgen.HasPlainBase | cmd/dictgen/main.go:285-297 | true exactly when some plain suffix ends the lemma and leaves a stem of at least two runes whose noun key is in the set |
| Dictgen.HasRestoredBase | cmd/dictgen/main.go:304-325 | true exactly when some vowel suffix leaves a stem of at least two runes ending in y or ğ whose k or q restoration is a noun key in the set |
| Dictgen.KeyLessPreorder | cmd/dictgen/main.go:114-120 | the output order, lemma then category byte, is a preorder |
| Dictgen.KeyLessTotal | cmd/dictgen/main.go:114-120 | any two keys are ordered one way or the other |
| Dictgen.SortedKeys | cmd/dictgen/main.go:107-120 | the lines are the set's keys, each once, sorted by lemma and then category |
| Dictgen.Generate | cmd/dictgen/main.go:39-131 | the output lines are exactly the keys of the input lines that are not inflected nouns, sorted by lemma and then category |
| ExtractReviews.Strip | scripts/extract_reviews.py:63 | str.strip() is no longer than its input, has no white space at either end, and is empty only when the input is all white space |
| ExtractReviews.Clean | scripts/extract_reviews.py:49-72 | the cleaning pass computes the three chained passes: first occurrence per non-missing content, stripped length at least 10, then the ambiguity pass over the deduplicated rows |
| ExtractReviews.DedupRows | scripts/extract_reviews.py:52-60 | the seen-set loop yields exactly the deduplicated rows |
| ExtractReviews.KeepLong | scripts/extract_reviews.py:63 | the comprehension yields exactly the length-filtered rows |
| ExtractReviews.CollectScores | scripts/extract_reviews.py:66-68 | the dictionary's keys are the contents of the rows, each mapped to the set of scores it appears with |
| ExtractReviews.DropRows | scripts/extract_reviews.py:69-71 | the comprehension yields exactly the rows whose content is not excluded |
| ExtractReviews.DedupProps | scripts/extract_reviews.py:52-60 | deduplication keeps rows with content only, no content twice, in input order, and loses no content |
| ExtractReviews.DedupExact | scripts/extract_reviews.py:52-60 | deduplication keeps exactly the first row of each content: every such row and no other |
| ExtractReviews.LengthFilterProps | scripts/extract_reviews.py:63 | the length filter keeps rows in input order, each long enough |
| ExtractReviews.LengthFilterExact | scripts/extract_reviews.py:63 | a row is kept exactly when it is in the input and its content strips to at least 10 runes |
| ExtractReviews.DropContentsProps | scripts/extract_reviews.py:71 | dropping keeps rows in input order, none with excluded content |
| ExtractReviews.UniqueScores | scripts/extract_reviews.py:66-69 | over rows with unique contents each content has at most one score |
| ExtractReviews.CleanProps | scripts/extract_reviews.py:49-72 | every kept row has content whose stripped length is at least 10, no two kept rows share content, and the kept rows are an order-preserving subsequence of the input |
| ExtractReviews.CleanExact | scripts/extract_reviews.py:49-72 | a row is kept exactly when it is the first row with its content and that content strips to at least 10 runes |
| ExtractReviews.AmbiguityFilterIsNoOp | scripts/extract_reviews.py:58-71 | the ambiguity pass sees each content once, so it never removes a row |
| ExtractReviews.AmbiguousReviewKept | scripts/extract_reviews.py:58-71 | a content posted twice with different scores is kept with its first score; the intended pass drops it |
| ExtractReviews.TwinAmbiguous | scripts/extract_reviews.py:66-69 | two rows with one content and two scores make that content ambiguous |
| ExtractReviews.CleanIntendedUnambiguous | scripts/extract_reviews.py:14-16 | with ambiguity measured over all rows, no kept row's content occurs in the input with a different score |
| ExtractReviews.KeptRow | scripts/extract_reviews.py:14-16 | a row the intended cleaning keeps comes from the input and its content is not ambiguous |
| ExtractReviews.Sanitize | scripts/extract_reviews.py:110-113 | the written content has the same length, no tab, newline or carriage return, and every other rune unchanged |
| ExtractReviews.SanitizeIdempotent | scripts/extract_reviews.py:112 | sanitising a sanitised content changes nothing |
| Keywords.StemAll | keywords/keywords.go:91 | one stem per word, in order |
| Keywords.HyphenSafeMember | keywords/keywords.go:84-89 | a word survives the hyphen filter exactly when it is one of the words and has fewer than eight hyphens |
| Keywords.HyphenSafeSubseq | keywords/keywords.go:84-89 | the hyphen filter only deletes, keeping the survivors in order |
| Keywords.KeepStemsMember | keywords/keywords.go:93-103 | a string is kept exactly when it is the lowercase form of a stem, has at least two runes and is no stopword |
| Keywords.KeptShape | keywords/keywords.go:93-103 | every kept stem is lowercase, has at least two runes and is no stopword |
| Keywords.Pipeline | keywords/keywords.go:74-106 | nothing for an empty or oversized text, otherwise the filtered lowercase stems of the normalised text's words |
| Keywords.DropHyphenated | keywords/keywords.go:84-89 | the loop computes exactly the hyphen-filtered words |
| Keywords.KeepCandidates | keywords/keywords.go:93-103 | the loop computes exactly the kept lowercase stems |
| Keywords.KeywordLessPreorder | keywords/keywords.go:168-176 | cmpKeyword, higher score first and then the stem in byte order, is a preorder |
| Keywords.TopN | keywords/keywords.go:118-120 | a positive topN is used as given, any other becomes the default, so at least one keyword is asked for |
| Keywords.SelectTop | keywords/keywords.go:122-128 | the stable sort and cut give at most topN candidates, a sorted selection from the candidates with nothing left out ranking above anything kept |
| Keywords.SortedPrefixRanked | keywords/keywords.go:123-127 | a prefix of a sorted permutation of the candidates is such a top selection |
| Keywords.DroppedBelowKept | keywords/keywords.go:123-127 | in sorted candidates nothing cut off ranks above anything kept |
| Keywords.ExtractTFIDF | keywords/keywords.go:113-129 | nothing exactly when the pipeline keeps no stem, otherwise a top selection of the TF-IDF candidates built from the stems kept from the scanner's words of the normalized text |
| Keywords.ExtractTextRank | keywords/keywords.go:135-151 | nothing exactly when the pipeline keeps no stem, otherwise at most topN top-ranked graph nodes, each a kept stem of the scanner's words carrying its number of occurrences |
| Keywords.Keywords | keywords/keywords.go:156-166 | the stems of the top ten TextRank keywords over the scanner's words, best first, and nothing exactly when no stem is kept |
| Keywords.StemsOf | keywords/keywords.go:161-164 | the stems of the keywords, one per keyword, in order |
| KeywordsTextRank.CollectNodes | keywords/textrank.go:31-37 | the nodes are the distinct stems in order of first occurrence, each indexed by its position |
| KeywordsTextRank.WeightSymmetric | keywords/textrank.go:45-55 | edges are undirected: the weight from x to y is the weight from y to x |
| KeywordsTextRank.WeightNear | keywords/textrank.go:45-55 | an edge joins two different stems that occur within the window of each other, and no stem has an edge to itself |
| KeywordsTextRank.Bump | keywords/textrank.go:51-52 | one increment raises exactly one weight by one and adds at most that one entry |
| KeywordsTextRank.RowStep | keywords/textrank.go:48-54 | pairing positions i and j adds to the weights of exactly those two nodes, in both directions |
| KeywordsTextRank.BumpBoth | keywords/textrank.go:50-53 | both directions of one co-occurrence are counted, and nothing for a node with itself |
| KeywordsTextRank.CountPair | keywords/textrank.go:48-54 | counting one pair moves the counts on by one position |
| KeywordsTextRank.CountEdges | keywords/textrank.go:40-55 | every edge weight equals the number of co-occurrences of the two stems within the window |
| KeywordsTextRank.CountWindow | keywords/textrank.go:46-54 | the pairs of one window add their co-occurrences, so every count then covers all windows up to and including position i |
| KeywordsTextRank.EdgeLessPreorder | keywords/textrank.go:63-65 | ordering edges by target is a preorder |
| KeywordsTextRank.SortedEdges | keywords/textrank.go:58-66 | each edge list holds exactly the map's entries, once each, sorted by target |
| KeywordsTextRank.MapEdges | keywords/textrank.go:57-66 | a node's edges are exactly the nodes it co-occurs with, each carrying the co-occurrence count |
| KeywordsTextRank.BuildGraph | keywords/textrank.go:30-69 | the nodes with their index and the sorted weighted edge lists form the co-occurrence graph of the stems |
| KeywordsTextRank.ScoreTextRank | keywords/textrank.go:8-22 | one keyword per node, in node order, with the rank score of that node and the number of times its stem occurs |
| Morph.Analyze | morph/morph.go:356-373 | nothing exactly for the empty word, and the bare word alone for a word over 256 bytes |
| Morph.AnalyzeContents | morph/morph.go:356-373 | every analysis is the bare word or a valid stem with at most the maximum number of suffixes that spells the word, and the bare word is offered whenever it is a valid stem |
| Morph.IndexOf | morph/morph.go:307 | the first position of the rune, or -1 exactly when it does not occur |
| Morph.FirstApostrophe | morph/morph.go:316-323 | the first position holding any of the three apostrophes, or -1 exactly when there is none |
| Morph.FirstKnown | morph/morph.go:332-338 | the stem of the first analysis with suffixes whose lowercase stem is in the dictionary, and nothing exactly when there is no such analysis |
| Morph.FirstInflected | morph/morph.go:344-348 | the stem of the first analysis with suffixes, and nothing exactly when there is none |
| Morph.StemPart | morph/morph.go:301-304 | the empty word and a word over 256 bytes are their own stem |
| Morph.Stem | morph/morph.go:301-304 | the empty word and a word over 256 bytes are their own stem |
| Morph.StemEach | morph/morph.go:309-311 | one stem per hyphen-separated part, in order |
| Morph.StemOfPart | morph/morph.go:307-311 | stemming a part never takes the hyphen branch again |
| Morph.StemHyphenated | morph/morph.go:307-313 | a hyphenated word's stem is the parts' stems joined by hyphens, with as many parts as the word |
| Morph.AnalyzeNoHyphen | morph/morph.go:356-373 | every stem offered for a hyphen-free word is hyphen-free |
| Morph.StemPartNoHyphen | morph/morph.go:315-349 | a hyphen-free part has a hyphen-free stem |
| Morph.SplitJoin | morph/morph.go:308-312 | splitting a join of separator-free parts gives the parts back |
| Morph.StemApostrophe | morph/morph.go:316-320 | a word with an apostrophe after its first rune stems to the text before the first apostrophe |
| Morph.StemPasses | morph/morph.go:325-349 | a known word is its own stem; an unknown word takes the first dictionary-known inflected analysis, else the first inflected one, else stays as it is |
| Morph.StemAll | morph/morph.go:382-385 | one stem per word |
| Morph.Stems | morph/morph.go:378-387 | nil exactly for nil, otherwise the stem of each word in its own position |
| MorphDict.Kept | morph/dict.go:30-33 | only lines of at least two bytes are kept, no more lines than there were |
| MorphDict.KeptLong | morph/dict.go:30-33 | every line of at least two bytes is kept |
| MorphDict.KeptFromLines | morph/dict.go:30-33 | nothing but input lines is kept |
| MorphDict.ShortLines | morph/dict.go:12-14 | empty and one-byte lines are dropped, a two-byte rune alone is kept |
| MorphDict.Parse | morph/dict.go:22-37 | one lemma and one tag per kept line, the tag and lemma together spelling the line |
| MorphDict.SearchRange | morph/dict.go:46 | the binary search stays within its range |
| MorphDict.SearchRangeBound | morph/dict.go:46 | on sorted lemmas the search returns the lower bound: everything before is below the key, nothing after is |
| MorphDict.SearchStringsBound | morph/dict.go:46 | sort.SearchStrings returns the lower bound of the key in sorted lemmas |
| MorphDict.KnownStem | morph/dict.go:42-48 | the empty string is never known, and a known stem is a lemma |
| MorphDict.StemPOS | morph/dict.go:54-63 | the empty string has no tag |
| MorphDict.KnownStemSorted | morph/dict.go:42-48 | with the lemmas sorted, a stem is known exactly when it is a non-empty lemma |
| MorphDict.StemPOSSorted | morph/dict.go:54-63 | with the lemmas sorted, the tag is the one beside the stem's first occurrence, and none for an empty or absent stem |
| MorphFsm.SuffixRulesOK | morph/suffixes.go:50-455 | no surface in the suffix table is empty, so every strip shortens the stem |
| MorphFsm.FirstVowel | morph/fsm.go:187-194 | the leftmost vowel, or none exactly when there is no vowel |
| MorphFsm.FirstVowelScan | morph/fsm.go:187-194 | the scan returns the leftmost vowel |
| MorphFsm.RunesEqual | morph/fsm.go:219-229 | true exactly when the two rune slices are equal |
| MorphFsm.HasDTVariantsScan | morph/fsm.go:198-216 | the scan answers whether the rule has both a d-initial and a t-initial surface |
| MorphFsm.Walker.constructor | morph/fsm.go:33-40 | the walker holds the word's runes and its lowercase runes, with no results yet |
| MorphFsm.Walker.Walk | morph/fsm.go:75-166 | walk appends exactly the analyses reachable from the position and state, and leaves both rune buffers as they were |
| MorphFsm.Walker.WalkRule | morph/fsm.go:97-164 | the surface loop for one rule appends exactly that rule's analyses and leaves the buffers unchanged |
| MorphFsm.Walker.WalkSurface | morph/fsm.go:98-163 | one surface adds exactly its analyses when it strips, and nothing otherwise |
| MorphFsm.Walker.CanStrip | morph/fsm.go:100-140 | a surface strips exactly when it fits, matches the lowercase runes, keeps vowel harmony and keeps d/t assimilation |
| MorphFsm.Walker.AssimilationCheck | morph/fsm.go:130-140 | the check passes exactly when the d/t assimilation rule holds for the rune before the suffix |
| MorphFsm.Walker.WalkPredecessors | morph/fsm.go:149-163 | the predecessor loop appends exactly the analyses of each predecessor state, each followed by its k/q restorations |
| MorphFsm.Walker.TryRestorations | morph/fsm.go:154-162 | before a vowel-initial suffix, a stem ending in y is also tried with k and one ending in ğ with q, and nothing else is added |
| MorphFsm.Walker.TryRestoredStem | morph/fsm.go:171-184 | the restored stem's analyses are appended and both buffers are put back as they were |
| MorphFsm.ParsesFound | morph/fsm.go:75-166 | every analysis walk produces is a valid stem with at most the maximum number of suffixes spelling the word |
| MorphFsm.TerminalStates | morph/fsm.go:19-28 | the terminal states are the rules' target states, each once |
| MorphFsm.TerminalStatesNotInitial | morph/fsm.go:19-28 | no walk starts at the initial state |
| MorphFsm.DedupProps | morph/fsm.go:240-259 | dedup keeps no key twice, keeps input order and loses no key |
| MorphFsm.DedupKeepsFirst | morph/fsm.go:240-259 | what dedup keeps of a key is the first analysis with that key |
| MorphFsm.DedupScan | morph/fsm.go:240-259 | the seen-set loop computes exactly the deduplicated analyses |
| MorphFsm.RankLessTransitive | morph/fsm.go:57-67 | the ranking order is transitive |
| MorphFsm.RankLessIrreflexive | morph/fsm.go:57-67 | no analysis ranks before itself |
| MorphFsm.SortRanked | morph/fsm.go:57-67 | the ranking sort is a permutation of its input |
| MorphFsm.SortRankedRanked | morph/fsm.go:57-67 | the ranking sort orders its output |
| MorphFsm.Analyze | morph/fsm.go:32-69 | analyze walks from every terminal state, deduplicates and sorts, and returns exactly the specified analyses |
| MorphFsm.AnalyzeSound | morph/fsm.go:32-69 | every analysis has a valid stem of at least two runes and at most five suffixes, and the stem with its suffixes spells the word, a final y or ğ possibly read as the k or q it softened from |
| MorphFsm.AnalyzeRanked | morph/fsm.go:52-67 | the output is ranked by more suffixes, then shorter stem, then tag key, and is a reordering of the deduplicated walk results |
| MorphFsm.Assimilation | morph/fsm.go:130-140 | after stripping, a t-initial suffix of an assimilating rule follows a voiceless rune and a d-initial one a voiced rune or q |
| MorphFsm.CopulaExempt | morph/fsm.go:126-131 | the copula's d and t forms are accepted after any rune |
| MorphPhonology.VowelClasses | morph/phonology.go:10-44 | no rune is both a back and a front vowel, and the vowels are exactly the listed letters |
| MorphPhonology.LastVowel | morph/phonology.go:59-68 | the rightmost vowel, or none exactly when there is no vowel |
| MorphPhonology.IsValidStem | morph/phonology.go:72-82 | a stem is valid exactly when it has at least two runes and a vowel |
| MorphPhonology.MatchesBackFront | morph/phonology.go:87-94 | a stem without a vowel accepts any suffix vowel |
| MorphPhonology.FourWayTarget | morph/phonology.go:110-123 | a and ı take ı, o and u take u, e, ə and i take i, ö and ü take ü |
| MorphPhonology.FourWayTargetClasses | morph/phonology.go:110-123 | the target keeps the stem vowel's backness and roundness |
| MorphPhonology.MatchesFourWay | morph/phonology.go:100-106 | a stem without a vowel accepts any suffix vowel |
| MorphPhonology.FourWayRefinesBackFront | morph/phonology.go:87-106 | whatever four-way harmony accepts, back/front harmony accepts too |
| MorphSuffixes.LongestFirstOrdered | morph/suffixes.go:34 | longest-first between neighbours gives longest-first between any two surfaces of a rule |
| MorphSuffixes.SurfaceLettersLower | morph/suffixes.go:46-48 | every letter used in a surface is its own lowercase form |
| MorphSuffixes.TableStates | morph/suffixes.go:50-455 | the table has forty rules, none leading into the initial state, each with surfaces and predecessor states |
| MorphSuffixes.TableShape | morph/suffixes.go:42-455 | every rule's surfaces are lowercase and run longest first, and no rule leads into the initial state |
| MorphSuffixes.Pers3OnlyAfterTense | morph/suffixes.go:436-445 | the verbal third-person plural applies only after a tense or mood marker |
| MorphTags.TagString | morph/morph.go:237-242 | a named tag prints as its name, any other as MorphTag(n) |
| MorphTags.NamedTagsHaveNames | morph/morph.go:127-242 | a tag has a name exactly when it is one of the named tags |
| MorphTags.Items | morph/morph.go:283-290 | one Tag:surface item per morpheme, in order |
| MorphTags.AnalysisTextBare | morph/morph.go:276-293 | the debug form is the bare stem exactly when there are no morphemes, and otherwise the stem followed by a bracket |
| MorphTags.AnalysisString | morph/morph.go:276-293 | the builder writes exactly the stem, then the morphemes in brackets separated by bars |
| MorphTags.JoinStep | morph/morph.go:284-286 | each item after the first is preceded by one bar |
| MorphVowelDrop.RightmostPair | morph/voweldrop.go:29-36 | the rightmost position starting a pair of non-vowels, or -1 exactly when there is none |
| MorphVowelDrop.Candidate | morph/voweldrop.go:53 | a candidate is one rune longer, with the vowel at the insertion point |
| MorphVowelDrop.Matches | morph/voweldrop.go:49-57 | the matches are dictionary stems, each a candidate built from one of the vowels |
| MorphVowelDrop.PickMatch | morph/voweldrop.go:67-73 | the first match carrying the harmony target at the insertion point, or nothing exactly when no match carries it |
| MorphVowelDrop.RestoreVowelDrop | morph/voweldrop.go:23-27 | a stem of fewer than three runes is never restored |
| MorphVowelDrop.RestoreShape | morph/voweldrop.go:23-75 | a restored stem is a dictionary stem one rune longer, made by inserting one of the nine vowels at the rightmost consonant pair, whose prefix has a vowel |
| MorphVowelDrop.RestoreNeedsCluster | morph/voweldrop.go:37-47 | without a consonant pair, or with a vowel-less prefix, nothing is restored |
| MorphVowelDrop.RestoreHarmony | morph/voweldrop.go:64-73 | with two or more hits the restored vowel is the four-way target of the prefix's last vowel, and nothing is restored exactly when no hit carries it |
| MorphVowelDrop.FindInsertPos | morph/voweldrop.go:29-36 | the backward scan finds the rightmost consonant pair |
| MorphVowelDrop.CollectMatches | morph/voweldrop.go:49-57 | the loop collects exactly the known candidates, in vowel order |
| MorphVowelDrop.FirstWithTarget | morph/voweldrop.go:67-73 | the loop returns the first match carrying the target |
| MorphVowelDrop.TryRestoreVowelDrop | morph/voweldrop.go:23-75 | the method computes exactly the restoration the function defines |
| NerEntity.TypeStringInjective | ner/ner.go:60-66 | EntityType.String prints a known type's table name and anything else as EntityType(n); different values print differently |
| NerEntity.LabeledSuffix | ner/ner.go:100-107 | the debug string ends in ",labeled]" exactly when the entity is labeled |
| NerEntity.StringStartsWithType | ner/ner.go:100-107 | the debug string starts with the type name and "(" |
| NerPatterns.TrimRightAnyCut | ner/patterns.go:113-114 | the trimmed URL text ends in a rune outside the cut set, and only cut-set runes were removed |
| NerPatterns.UrlEntityShape | ner/patterns.go:109-124 | a URL entity is a non-empty slice of the input ending where its trimmed text ends, within the match, and the runes dropped after it are all trailing punctuation |
| NerPatterns.EmailEntitiesShape | ner/patterns.go:93-107 | e-mail entities are slices of the input of at most 254 characters, and every match within that length yields one |
| NerPatterns.BareFinShape | ner/patterns.go:171-187 | a bare FIN entity is unlabeled, contains an ASCII capital and an ASCII digit, and does not start where a labeled FIN starts |
| NerPatterns.SpanEntitiesAt | ner/patterns.go:72-91 | the phone, IBAN, plate and labeled passes give one entity per match, in match order, with the matched text and offsets |
| NerPatterns.AppendUrl | ner/patterns.go:109-124 | appends exactly the trimmed URL entities, in match order |
| NerPatterns.AppendEmail | ner/patterns.go:93-107 | appends exactly the e-mail entities within the length cap, in match order |
| NerPatterns.AppendSpans | ner/patterns.go:72-91 | appends one entity per match with the given type and label flag (appendPhone, appendIBAN, appendLicensePlate, appendVOEN) |
| NerPatterns.IsMixedAlphanumeric | ner/patterns.go:207-223 | true exactly when the text holds an ASCII capital and an ASCII digit |
| NerPatterns.AppendFin | ner/patterns.go:152-190 | appends the labeled FIN codes, then the bare ones that mix letters and digits and do not start at a labeled code |
| NerPatterns.EntityLessOrder | ner/patterns.go:236-253 | the sort order (start, then longer first, then labeled first) is a strict weak order |
| NerPatterns.EntityOrderOk | ner/patterns.go:236-253 | the entity order puts an earlier start first and is a strict weak order, as the generic resolution needs |
| Overlaps.KeepFirst | ner/patterns.go:255-268 | over items sorted by the order, the kept ones are input items, at most the cap, pairwise disjoint in start order, none beaten by another item at the same start; below the cap every dropped item starts inside a kept one, and at the cap every item starting before the last kept one ends is kept or starts inside a kept one |
| Overlaps.KeepToLast | ner/patterns.go:255-268 | at any point of the scan, every item starting before the last kept one ends is kept or starts inside a kept one |
| Overlaps.Resolve | ner/patterns.go:225-269 | zero or one item come back unchanged; otherwise the sorted copy is filtered as above, so the result has those properties with respect to the input |
| NerPatterns.ResolveOverlaps | ner/patterns.go:225-269 | resolveOverlaps for entities: at most 10000, disjoint, from the input, longest (then labeled) at each start, every dropped entity inside a kept one; zero or one entity unchanged |
| NerPatterns.CandidatesSlices | ner/ner.go:5-6 | every candidate entity is a non-empty slice of the input that carries its own text |
| NerPatterns.Recognize | ner/patterns.go:47-70 | applies the passes in the source's order and resolves overlaps among the candidates; every result is a slice of the input |
| Ner.Recognize | ner/ner.go:113-121 | "" and inputs over 1 MiB give no entities; otherwise the resolved candidates |
| Ner.TextsOfMembers | ner/ner.go:158-167 | a text is listed exactly when some entity of the type carries it |
| Ner.FilterTexts | ner/ner.go:158-167 | the loop collects the texts of the entities of the type, in order |
| Ner.TextsOfType | ner/ner.go:123-156 | each per-type list is empty for "" or oversized input; otherwise it is exactly the texts of that type, in order, of a resolution of the candidates |
| Normalize.CutsAtRunes | normalize/normalize.go:95-100 | the word is cut at a non-initial apostrophe unless it is an ASCII apostrophe in last place; a trailing multi-byte apostrophe still cuts |
| Normalize.FirstCut | normalize/normalize.go:95-101 | the first cut position at or after k, or -1 exactly when there is none |
| Normalize.RestoreParts | normalize/normalize.go:113-117 | one result per part: empty parts stay empty, the others are restored |
| Normalize.RestoreHyphenated | normalize/normalize.go:108-112 | a word with one part or more than eight is returned unchanged |
| Normalize.RestoredNoHyphen | normalize/normalize.go:113-117 | restoration never introduces a hyphen |
| Normalize.RestoreHyphenatedParts | normalize/normalize.go:108-119 | a word of two to eight parts keeps its hyphens: splitting the result gives back the parts, each non-empty one restored on its own |
| Normalize.RestoreWordTokenShape | normalize/normalize.go:88-104 | without a usable hyphen the token keeps its rune count, the stem before the first usable apostrophe is restored and the rest is kept as is |
| Normalize.NormalizeWord | normalize/normalize.go:75-84 | "" is returned as is, and a word over 256 bytes after composition comes back composed only |
| Normalize.RestoreTokensFixed | normalize/normalize.go:59-70 | tokens that all restore to themselves reassemble into the composed text |
| Normalize.RestoreAll | normalize/normalize.go:62-68 | the loop appends each word token restored and every other token as it is, in order |
| Normalize.Normalize | normalize/normalize.go:48-71 | "" and input over 1 MiB are unchanged; otherwise the composed text's tokens tile it, and the output is each token's contribution in order, so a text without words comes back composed and otherwise unchanged |
| NormalizeDiacritics.TwinIsDiacritic | normalize/diacritics.go:27-35 | each substituted rune is a diacritic letter, and so is its upper case |
| NormalizeDiacritics.Positions | normalize/diacritics.go:83-88 | the substitutable positions, in increasing order, and every substitutable position is listed |
| NormalizeDiacritics.ApplyShape | normalize/diacritics.go:113-118 | every rune of a variant is the lowercase rune or, at a listed position, its diacritic twin |
| NormalizeDiacritics.ApplySet | normalize/diacritics.go:114-118 | a position whose mask bit is set holds its twin |
| NormalizeDiacritics.FirstMatchCount | normalize/diacritics.go:107-132 | a matching mask is found exactly when some variant is a stem, it lies below 2 to the n, and when exactly one variant matches it is that one |
| NormalizeDiacritics.RestoreCase | normalize/diacritics.go:145-162 | on a rune-count mismatch the original; otherwise the restored runes with the original's upper-case positions upper-cased |
| NormalizeDiacritics.Restored | normalize/diacritics.go:72-141 | restoration keeps the word's rune count |
| NormalizeDiacritics.RestoredChange | normalize/diacritics.go:72-141 | a word changes only when it has no diacritic, is at most 256 bytes, has one to ten positions, is not itself a stem and exactly one variant is a stem; then the result is that one variant in the original's case, each rune its lowercase form or its twin |
| NormalizeDiacritics.RestoredHasDiacritic | normalize/diacritics.go:72-141 | a rewritten word holds a diacritic letter |
| NormalizeDiacritics.RestoredIdempotent | normalize/diacritics.go:72-79 | restoring twice is restoring once |
| NormalizeDiacritics.ScanPositions | normalize/diacritics.go:83-88 | the loop collects exactly the substitutable positions |
| NormalizeDiacritics.BuildVariant | normalize/diacritics.go:113-118 | one pass of the bit loop writes exactly the mask's variant |
| NormalizeDiacritics.SearchMasks | normalize/diacritics.go:107-132 | the search reports a unique match exactly when one variant is a stem, and then its mask is the first matching one |
| NormalizeDiacritics.Rebuild | normalize/diacritics.go:135-139 | the in-place rebuild gives exactly the matched mask's variant |
| NormalizeDiacritics.RestoreWord | normalize/diacritics.go:72-141 | the method computes exactly the restoration the function defines |
| NumtextConvert.GroupWords | numtext/convert.go:68-95 | a group value of 1 to 999 is written as one to four words |
| NumtextConvert.GroupHundreds | numtext/convert.go:69-76 | one hundred is "yüz" alone and two hundred is "iki yüz" |
| NumtextConvert.MagnitudeChain | numtext/words.go:47-59 | each magnitude is a thousand times the next, from 10^18 down to one thousand |
| NumtextConvert.Split | numtext/convert.go:39-52 | the count for a magnitude is at most 999 and the remainder below the magnitude, together giving back the value |
| NumtextConvert.SplitIsDivMod | numtext/convert.go:39-52 | the split is the quotient and remainder convert computes |
| NumtextConvert.MagnitudeWords | numtext/convert.go:40-53 | a magnitude writes words exactly when its count is non-zero |
| NumtextConvert.ConvertUnfold | numtext/convert.go:38-54 | one level of convert is the block for that magnitude followed by the words for the remainder |
| NumtextConvert.ConvertLast | numtext/convert.go:56-61 | after the last magnitude only the final group is left, written exactly when it is non-zero |
| NumtextConvert.ConvertNonEmpty | numtext/convert.go:38-61 | no words for zero and at least one word for any positive value |
| NumtextConvert.WriteGroup | numtext/convert.go:68-95 | writeGroup appends exactly the group's text |
| NumtextConvert.JoinParts | numtext/convert.go:82-94 | a space goes only between parts that are present |
| NumtextConvert.BlockText | numtext/convert.go:44-51 | one magnitude block is "min" alone for one thousand, and otherwise the group, a space and the magnitude word |
| NumtextConvert.WriteBlock | numtext/convert.go:44-51 | the method appends exactly that block |
| NumtextConvert.WriteLast | numtext/convert.go:56-61 | the tail appends a separating space and the last group when it is non-zero, and nothing otherwise |
| NumtextConvert.ConvertMagnitude | numtext/convert.go:38-54 | one pass of the loop keeps the builder equal to the join of the words written so far |
| NumtextConvert.Convert | numtext/convert.go:18-64 | convert returns exactly the cardinal text of its argument |
| NumtextConvert.CardinalWordsTokens | numtext/convert.go:18-64 | the cardinal is a non-empty list of lowercase space-free words |
| NumtextConvert.CardinalEmpty | numtext/convert.go:18-21 | convert returns "" exactly for values beyond 10^18 in magnitude |
| NumtextConvert.CardinalNegative | numtext/convert.go:26-36 | a negative value reads as "mənfi", a space, then the text of its magnitude |
| NumtextConvert.SkipMagnitudes | numtext/convert.go:38-54 | a magnitude larger than the value contributes no words |
| NumtextConvert.MagnitudeOrder | numtext/words.go:47-59 | magnitudes decrease along the table |
| NumtextConvert.CardinalThousand | numtext/convert.go:44-46 | one thousand is "min" without "bir" |
| NumtextConvert.CardinalTwoThousand | numtext/convert.go:47-51 | two thousand keeps its count: "iki min" |
| NumtextConvert.CardinalMillion | numtext/convert.go:44-51 | one million keeps "bir": "bir milyon" |
| NumtextConvert.CardinalSmall | numtext/convert.go:56-61 | below one thousand the cardinal is the group text alone |
| NumtextFloat.IndexSep | numtext/convert.go:149 | the position of the first '.' or ',', or -1 exactly when there is none |
| NumtextFloat.CheckAllDigits | numtext/convert.go:322-332 | true exactly for a non-empty string of ASCII digits |
| NumtextFloat.CheckAllZeros | numtext/convert.go:335-342 | true exactly when every byte is '0', the empty string included |
| NumtextFloat.ZerosValue | numtext/convert.go:179 | a digit string is all zeros exactly when its value is zero |
| NumtextFloat.DigitsBelow | numtext/convert.go:199-214 | a string of e digits is worth less than 10 to the e |
| NumtextFloat.PowerOf10Max | numtext/words.go:65 | the last power in the table is 10^18, the largest value convert reads |
| NumtextFloat.PowerOf10Text | numtext/convert.go:246-251 | non-empty exactly for exponents 0 to 18 |
| NumtextFloat.PowerOf10Words | numtext/convert.go:246-251 | the method returns the cardinal text of the table entry |
| NumtextFloat.Locative | numtext/convert.go:310-318 | the method returns the locative suffix the vowel-harmony function defines |
| NumtextFloat.DenominatorWord | numtext/convert.go:212-222 | a denominator exists exactly up to 18 digits; beyond three it is the power of ten followed by its locative suffix |
| NumtextFloat.DigitNames | numtext/convert.go:234-238 | one digit name per fractional digit |
| NumtextFloat.WriteDigits | numtext/convert.go:234-238 | the loop appends exactly the digit-mode text |
| NumtextFloat.Fraction | numtext/convert.go:197-239 | the fractional half for each mode is exactly its specified text, or failure |
| NumtextFloat.ConvertDecimal | numtext/convert.go:163-241 | from the separator on, the method computes exactly the specified decimal reading |
| NumtextFloat.WriteReading | numtext/convert.go:188-241 | the whole part's text, then the fractional part |
| NumtextFloat.ConvertFloat | numtext/convert.go:134-242 | the method computes exactly the specified conversion: trim, one optional sign, then an integer or a decimal |
| NumtextFloat.ConvertUnsigned | numtext/convert.go:149-161 | after the sign: an integer without a separator, a decimal with one |
| NumtextFloat.UnsignedAt | numtext/convert.go:163-164 | with a separator, the parts around it are read as whole and fraction |
| NumtextFloat.ConvertInteger | numtext/convert.go:151-161 | without a separator: strconv.ParseInt of the rest, negated for a minus sign, then convert |
| NumtextFloat.NegWrap | numtext/convert.go:157-159 | Go's int64 negation stays within int64 |
| NumtextFloat.IntegerTextUnparsed | numtext/convert.go:153-156 | the reading is empty when ParseInt fails |
| NumtextFloat.FloatSigned | numtext/convert.go:135-147 | a signed text reads as its unsigned rest, with the sign passed on |
| NumtextFloat.FloatDecimal | numtext/convert.go:134-242 | a signed decimal reads as the decimal reading of the parts around its first separator |
| NumtextFloat.ModeIgnored | numtext/convert.go:151-161 | input without a separator reads the same in both modes |
| NumtextFloat.NoSepInteger | numtext/convert.go:151-161 | without a separator the unsigned text is the integer reading |
| NumtextFloat.FloatInteger | numtext/convert.go:134-161 | an optionally signed digit string within range reads as the cardinal of its signed value |
| NumtextFloat.IntegerDigits | numtext/convert.go:151-161 | a digit string within the cardinal range reads as the cardinal of its value, signed |
| NumtextFloat.MathFraction | numtext/convert.go:198-229 | math mode reads a fraction exactly when it has at most 18 digits, as "tam", the denominator and the numerator's cardinal |
| NumtextFloat.DigitFraction | numtext/convert.go:231-238 | digit mode writes "vergül" and one word per fractional digit: splitting its text gives the digit names back |
| NumtextFloat.NegativeZero | numtext/convert.go:178-194 | the minus sign is dropped exactly when the whole and fractional parts are both worth zero |
| NumtextFloat.DoubleSignAsWritten | numtext/convert.go:140-160 | as written, ParseInt accepts a second sign after the first, so "--5" reads "beş"; the intended reading rejects it |
| NumtextFloat.DoubleSignFloat | numtext/convert.go:134-160 | the whole conversion of "--5" is "beş", a positive five |
| NumtextFloat.IntegerTextAgrees | numtext/convert.go:151-161 | on digit strings the as-written and intended readings agree |
| NumtextFloat.IntegerValue | numtext/convert.go:151-161 | the intended integer reading of a digit string that parses is the cardinal of its signed value |
| NumtextFloat.IntegerTextNegative | numtext/convert.go:157-160 | with the fix, a minus sign never reads as a positive number: zero stays "sıfır", anything else gets "mənfi" |
| NumtextOrdinal.HarmonyVowel | numtext/convert.go:277-305 | the suffix vowel is a vowel agreeing with the given vowel in frontness and rounding |
| NumtextOrdinal.LastVowelOf | numtext/convert.go:255-264 | the last vowel of the text, or none when it has no vowel |
| NumtextOrdinal.LastVowel | numtext/convert.go:255-264 | the backward scan returns the last vowel |
| NumtextOrdinal.LastVowelAppend | numtext/convert.go:255-264 | a vowel in the appended part hides every vowel before it |
| NumtextOrdinal.SuffixHarmony | numtext/convert.go:277-305 | the full suffix is "nc" between two harmonising high vowels, the short one is the full one without its first vowel, and a non-vowel gets neither |
| NumtextOrdinal.LocativeSuffix | numtext/convert.go:310-318 | "da" exactly after a back last vowel, "də" otherwise, including when there is no vowel |
| NumtextOrdinal.ConvertOrdinal | numtext/convert.go:99-130 | the method computes exactly the specified ordinal text |
| NumtextOrdinal.Suffixed | numtext/convert.go:112-125 | the suffixing step gives exactly the ordinal of the cardinal text |
| NumtextOrdinal.JoinLastVowel | numtext/convert.go:255-264 | the last vowel of a join of vowelled words is the last vowel of its last word |
| NumtextOrdinal.CardinalVowel | numtext/convert.go:110-115 | every cardinal convert produces has a vowel, so the no-vowel return is never taken |
| NumtextOrdinal.OrdinalOfHarmony | numtext/convert.go:112-125 | the ordinal is the cardinal plus a suffix, which starts with a consonant exactly when the cardinal ends in a vowel, and whose vowel harmonises with the cardinal's last vowel |
| NumtextOrdinal.OrdinalEmpty | numtext/convert.go:99-102 | convertOrdinal returns "" exactly for values beyond 10^18 in magnitude |
| NumtextOrdinal.OrdinalNegative | numtext/convert.go:104-128 | a negative ordinal is "mənfi", a space and the ordinal of the magnitude |
| NumtextOrdinal.OrdinalZero | numtext/convert.go:99-130 | zero's ordinal is "sıfırıncı" |
| NumtextOrdinal.OrdinalOfConsonant | numtext/convert.go:121-123 | after a final consonant the full suffix: "birinci", "üçüncü" |
| NumtextOrdinal.OrdinalOfVowel | numtext/convert.go:119-120 | after a final vowel the short suffix: "iyirminci", "altıncı" |
| NumtextOrdinal.OrdinalOfCardinal | numtext/convert.go:104-125 | the ordinal of a non-negative value is the ordinal of its cardinal text |
| NumtextParse.FitId | numtext/parse.go:90-120 | results that fit in int64 are the same with Go's wrapping arithmetic or with exact arithmetic |
| NumtextParse.Parse | numtext/numtext.go:73-78 | Parse computes exactly the specified reading with Go's int64 arithmetic, "" included |
| NumtextParse.ParseFields | numtext/parse.go:55-133 | from the token list on, the method computes exactly the specified reading |
| NumtextParse.AccumulateAll | numtext/parse.go:79-117 | the loop computes exactly the specified fold over the tokens |
| NumtextParse.Total | numtext/parse.go:119-132 | the sum, the sign and the range check compute exactly the specified result |
| NumtextParse.Accumulate | numtext/parse.go:80-116 | one token's step in int64 arithmetic is exactly the specified step |
| NumtextParse.RunAppend | numtext/parse.go:79-117 | reading a + b reads a and then, unless a failed, b from where a stopped |
| NumtextParse.RunRejects | numtext/parse.go:80-88 | an unknown word or "sıfır" anywhere in the loop's tokens makes the loop fail |
| NumtextParse.ParseRejects | numtext/parse.go:69-88 | an unknown word is an error, and so is "sıfır" anywhere but alone after the optional "mənfi" |
| NumtextParse.ParseBlank | numtext/parse.go:51-57 | input that is empty or only white space is the empty-input error |
| NumtextParse.ImplicitOne | numtext/parse.go:93-105 | "yüz" or a magnitude word after an empty group reads as one of it |
| NumtextParse.MagnitudeStep | numtext/parse.go:100-116 | a magnitude word succeeds exactly when the group (one when empty) times the magnitude still fits within 10^18 of the total, and then adds that product and empties the group |
| NumtextParse.RunUnit | numtext/parse.go:90-92 | a ones or tens word adds its value to the group |
| NumtextParse.RunGroup | numtext/parse.go:90-99 | reading the words of a group value from an empty group leaves that value in the group |
| NumtextParse.RunMagnitude | numtext/parse.go:100-116 | the words for a count of a magnitude add that amount to the total and leave the group empty |
| NumtextParse.RunConvert | numtext/parse.go:79-119 | reading convert's words for m after a total c ends with total plus group equal to c + m |
| NumtextParse.TokenizeJoin | numtext/parse.go:51-53 | the text of a non-empty list of lowercase words splits back into that list |
| NumtextParse.CardinalTokens | numtext/parse.go:51-53 | the words convert writes are the tokens parse reads |
| NumtextParse.ReadMagnitude | numtext/parse.go:79-119 | the loop reads convert's words for 0 < m <= 10^18 back as m |
| NumtextParse.FinishSigned | numtext/parse.go:119-132 | the final sum and sign give back the signed accumulated value |
| NumtextParse.ParsePositive | numtext/parse.go:55-133 | parse reads convert's words for a positive value back as that value |
| NumtextParse.ParseNegative | numtext/parse.go:59-67 | parse reads "mənfi" and convert's words for m back as -m |
| NumtextParse.ParseRoundTrip | numtext/numtext.go:37-78 | Parse(Convert(n)) == n for every n that convert writes out, with Go's int64 arithmetic or without |
| NumtextParse.FinishRange | numtext/parse.go:119-132 | the final check keeps every exact result within 10^18, and with Go's arithmetic lets only -2^63 through besides |
| NumtextParse.ParseRange | numtext/parse.go:49-133 | every value parse returns is within 10^18 of zero, except -2^63 with Go's arithmetic |
| NumtextParse.StepNonNeg | numtext/parse.go:80-116 | with exact arithmetic one step never makes the total or the group negative |
| NumtextParse.RunNonNeg | numtext/parse.go:79-117 | with exact arithmetic the loop never makes the total or the group negative |
| NumtextParse.ParseSign | numtext/parse.go:59-120 | with exact arithmetic the result is not negative without a leading "mənfi" and not positive with one |
| NumtextParse.RunHundredsRepeat | numtext/parse.go:93-99 | each further "yüz" multiplies the group by one hundred |
| NumtextParse.OverflowLast | numtext/parse.go:93-99 | the ninth "yüz" after eighteen multiplies past int64, and Go's arithmetic wraps to a negative group |
| NumtextParse.ParseUnsigned | numtext/parse.go:59-132 | tokens without a leading "mənfi" that are not a lone "sıfır" go through the loop and the final check with sign one |
| NumtextParse.FinishOverflow | numtext/parse.go:119-132 | the wrapped negative group passes the final check, while the exact value is out of range |
| NumtextParse.OverflowAsWritten | numtext/parse.go:93-99 | as written, "on səkkiz" followed by nine "yüz" parses to a negative value with no "mənfi"; with exact arithmetic the same words are out of range |
| NumtextWords.PowerOf10 | numtext/words.go:63-85 | every power in the table is at least one |
| NumtextWords.WordValue | numtext/parse.go:11-38 | every word in the parser's table has a value from 0 to 10^18 |
| NumtextWords.TablesAgree | numtext/parse.go:11-38 | the parser's table gives each converter word its value: digits, tens, "yüz" and every magnitude, and has no entry for "mənfi" |
| SentimentLexicon.CutTab | sentiment/lexicon.go:33-36 | splitting at the first tab fails exactly when there is no tab, and otherwise the two halves and the tab give back the line |
| SentimentLexicon.EntrySkips | sentiment/lexicon.go:28-42 | a line gives an entry exactly when, trimmed, it is non-empty, does not start with '#', has a tab and its score parses |
| SentimentLexicon.Entries | sentiment/lexicon.go:28-43 | one entry or none per line, in order |
| SentimentLexicon.LexiconHas | sentiment/lexicon.go:26-45 | a stem is in the lexicon exactly when some line gives an entry for it |
| SentimentLexicon.LexiconLast | sentiment/lexicon.go:42 | a stem's score is the one on the last line that gives it |
| SentimentLexicon.ParseLexicon | sentiment/lexicon.go:26-45 | the loop builds exactly the lexicon the file's lines give |
| SentimentLexicon.IsNonLinguistic | sentiment/lexicon.go:144-151 | a word is non-linguistic exactly when it has no letter |
| SentimentLexicon.NextStem | sentiment/lexicon.go:132-140 | the first non-empty stem after the position, when there is one |
| SentimentLexicon.NegatedIff | sentiment/lexicon.go:132-140 | a word is negated exactly when some later stem is "deyil" and every stem between is empty |
| SentimentLexicon.FollowedByNeg | sentiment/lexicon.go:132-140 | the loop answers exactly whether the next non-empty stem is "deyil" |
| SentimentLexicon.TallyBounds | sentiment/lexicon.go:71-100 | every word counted positive or negative was scored, no more words were scored than analysed, and with scores in [-1, 1] the sum is bounded by the scored count |
| SentimentLexicon.Outcome | sentiment/lexicon.go:102-127 | no scored word gives neutral with score zero; otherwise the score is the average and the polarity is its sign |
| SentimentLexicon.AnalysisCounts | sentiment/lexicon.go:48-128 | positive and negative words together never outnumber the words, and the total is the word count |
| SentimentLexicon.AnalysisScoreRange | sentiment/lexicon.go:109 | with lexicon scores in [-1, 1] the score is in [-1, 1] |
| SentimentLexicon.NegationFlips | sentiment/lexicon.go:88-91 | a word followed by "deyil" adds the negation of its lexicon score |
| SentimentLexicon.AnalyzeText | sentiment/lexicon.go:48-128 | analyze composes, takes the scanner's words, stems each linguistic word and returns exactly the specified counts and average |
| SentimentLexicon.StemsOf | sentiment/lexicon.go:56-62 | one stem per word |
| SentimentLexicon.StemWords | sentiment/lexicon.go:56-62 | the loop computes each word's lowercase stem, and "" for non-linguistic words |
| SentimentLexicon.ScoreWords | sentiment/lexicon.go:71-100 | the loop computes exactly the specified counters |
| SentimentLexicon.Analyze | sentiment/sentiment.go:96-101 | the zero result for an empty or oversized text, and otherwise analyze |
| Spell.LowerIdem | spell/spell.go:70 | lowercasing twice is lowercasing once |
| Spell.SplitShorter | spell/spell.go:79-87 | a word holding a hyphen splits into strictly shorter parts, so the recursion on parts terminates |
| Spell.HyphenOfLower | spell/spell.go:78-79 | the lowercased word holds a hyphen only where the word does |
| Spell.IsCorrectGuards | spell/spell.go:62-74 | "", words over 256 bytes and one-rune words are correct |
| Spell.IsCorrectHyphenated | spell/spell.go:78-89 | with an inner hyphen, more than eight parts are accepted, and otherwise the word is correct exactly when each non-empty part is |
| Spell.IsCorrectLayers | spell/spell.go:98-132 | without an inner hyphen or usable apostrophe, a word with a digit is correct, and a word without one is correct exactly when the frequency list, a known-stem analysis or the diacritic-restored form accepts it |
| Spell.IsCorrectApostrophe | spell/spell.go:91-96 | a usable apostrophe leaves only the lowercase stem before it to check |
| Spell.SuffixSurface | spell/spell.go:361-367 | the surfaces of the analysis's morphemes, concatenated in order |
| Spell.SuffixFills | spell/spell.go:176-180 | stem and suffixes of an inflected analysis are together as long as the word |
| Spell.SortedRetermed | spell/spell.go:215-217 | re-casing the terms keeps the suggestions sorted |
| Spell.CaseAll | spell/spell.go:156-158 | every term takes the case pattern of the word, with distance and frequency kept |
| Spell.StemCandidates | spell/spell.go:167-206 | one analysis with suffixes and an unknown stem looks its stem up once; every reconstruction from that lookup is then seen, and the gathered list stays stem-derived and holds every seen reconstruction that re-analyses to a known stem; an analysis without suffixes or with a known stem looks nothing up |
| Spell.Reconstruct | spell/spell.go:179-205 | the loop over one stem's lookup results: every reconstruction is seen, each added suggestion is a reconstruction that re-analyses to a known stem with its hit's distance and frequency, earlier results stay, and every seen valid reconstruction is kept |
| Spell.StemGatheredAfter | spell/spell.go:167-206 | what the loop over one stem adds keeps every gathered suggestion derived from an analysis of the word |
| Spell.GatherStems | spell/spell.go:163-206 | the loop over the analyses: one stem lookup per analysis, every reconstruction seen, the results stem-derived, and every seen reconstruction that re-analyses to a known stem kept |
| Spell.KeptComplete | spell/spell.go:179-205 | when every reconstruction was seen and every kept term is among the returned terms, no valid reconstruction is missing |
| Spell.StemFoundNonEmpty | spell/spell.go:208-210 | when some reconstruction re-analyses to a known stem, the stem-level fallback is not empty |
| Spell.StemPerm | spell/spell.go:213 | sorting the stem-level suggestions keeps what is known of each, and every term among them |
| Spell.Suggest | spell/spell.go:140-220 | nothing for "" or a correct word; otherwise, with the distance capped at 2, exactly the whole-word lookup's results in the word's case when there are any; only when that lookup is empty, the stem-level candidates sorted, each derived from an analysis, and among them every reconstruction from the stem lookups that re-analyses to a known stem; every term in the word's case, and not empty when the lookup can reach a dictionary word within the distance |
| Spell.StemSuggest | spell/spell.go:160-219 | the stem-level fallback: sorted suggestions in the word's case, each built from an analysis with an unknown stem, a lookup hit for that stem and the suffixes put back; one stem lookup per analysis, and every reconstruction from those lookups that re-analyses to a known stem is among them |
| Spell.Recase | spell/spell.go:156-158 | the same suggestions, still sorted, with each term in the word's case |
| Spell.CorrectWord | spell/spell.go:225-239 | "", over-long and correct words are kept; otherwise the first of Suggest's results at distance 2, or the word when there are none: the best whole-word lookup hit in the word's case when there is one, else, when some reconstruction from the stem lookups re-analyses to a known stem, the best stem-level suggestion in the word's case; there is a suggestion whenever the lookup can reach a word within distance 2 |
| Spell.JoinedTexts | spell/spell.go:258-274 | pieces equal to their tokens' texts join back into the text |
| Spell.Correct | spell/spell.go:245-275 | "" and input over 1 MiB are unchanged; otherwise one piece per word token, joined in order: non-words, unknown title-case words and correct words verbatim, every other word replaced by CorrectWord's top correction (the word itself when Suggest has none); a text whose words are all kept comes back unchanged |
| Spell.CorrectToken | spell/spell.go:258-271 | a token Correct leaves alone (non-word, title-case unknown word or correct word) contributes its own text, and any other word contributes the first of Suggest's results for it at distance 2, or itself when there are none |
| SpellSymspell.TruncateToRunes | spell/symspell.go:76-85 | the first n runes, the whole string when it is shorter, and the whole string for a negative n |
| SpellSymspell.DelAt | spell/symspell.go:125 | one deletion shortens the word by one rune |
| SpellSymspell.DeletesAtLength | spell/symspell.go:96-138 | a string k deletions away is k runes shorter |
| SpellSymspell.ReachLevels | spell/symspell.go:96-138 | the strings within reach are exactly those 1 to d deletions away |
| SpellSymspell.ReachShorter | spell/symspell.go:96-138 | everything within reach is strictly shorter than the input, so the input itself is never a result |
| SpellSymspell.Shrinks | spell/symspell.go:115-135 | each new string seen leaves strictly fewer unseen, so the queue loop terminates |
| SpellSymspell.ExpandStep | spell/symspell.go:125-133 | one deletion is recorded when new, and queued when above the last level |
| SpellSymspell.Expand | spell/symspell.go:119-134 | the inner loop keeps the breadth-first invariant, only adds strings within reach, and queues nothing when it sees nothing new |
| SpellSymspell.GenerateDeletes | spell/symspell.go:96-138 | nothing for distance 0 or an empty string; otherwise exactly the strings 1 to dist deletions away, each once, never the input itself |
| SpellSymspell.OsaUnfold | spell/symspell.go:264-296 | every inner cell of the table is computed from its neighbours, including the transposition two back |
| SpellSymspell.CellAtMost | spell/symspell.go:272-282 | a cell is at most one more than each direct neighbour, and at most the diagonal when the runes match |
| SpellSymspell.OsaLowerBound | spell/symspell.go:234-299 | every alignment needs at least as many edits as the lengths differ |
| SpellSymspell.OsaUpperBound | spell/symspell.go:234-299 | no alignment needs more edits than the longer string has runes |
| SpellSymspell.DistanceZeroIff | spell/symspell.go:234-299 | the distance is 0 exactly for equal strings |
| SpellSymspell.DistanceSymmetric | spell/symspell.go:234-299 | the distance does not depend on the order of its arguments |
| SpellSymspell.AdjacentSwap | spell/symspell.go:284-290 | swapping the last two different runes is one edit |
| SpellSymspell.DamerauLevenshtein | spell/symspell.go:234-299 | an empty side gives the other's length, a length difference above 2 is returned as is, and otherwise the three rotating rows give the optimal string alignment distance |
| SpellSymspell.Row | spell/symspell.go:265-293 | one row of the table holds the distances of a's prefix to every prefix of b |
| SpellSymspell.EarlyExitSound | spell/symspell.go:247-253 | a length difference above 2 means the distance is above 2 too, so the early exit never hides a match |
| SpellSymspell.SuggestionLessPreorder | spell/symspell.go:224-229 | distance ascending, then frequency descending, is a preorder |
| SpellSymspell.SortSuggestions | spell/symspell.go:212-222 | the insertion sort leaves the array sorted, holding the same suggestions, with tied suggestions in their original order |
| Sorting.SortBy | spell/symspell.go:212-222 | the insertion sort leaves the array sorted, a permutation of the input, and keeps tied elements in their input order |
| SpellSymspell.OsaEmpty | spell/symspell.go:240-245 | an empty side is at the other side's length |
| SpellSymspell.AddCandidates | spell/symspell.go:180-203 | every word at the candidate positions is marked seen, each scored at most once; every seen word within the cap is in the results with its true distance, and only words at those positions are added |
| SpellSymspell.Score | spell/symspell.go:185-202 | one new candidate is marked seen and kept exactly when its distance is within the cap |
| SpellSymspell.Gather | spell/symspell.go:177-204 | after the walk over the delete keys, every word stored under a key was seen, only such words were seen, and exactly those within the cap are in the results |
| SpellSymspell.Lookup | spell/symspell.go:143-208 | "" gives nothing; a listed word is the only result at distance 0; too long an input gives nothing; otherwise a word is a result exactly when it is stored under the prefix or one of its deletes and lies within the cap, each term once, sorted, with its true distance and frequency |
| SpellSymspell.LookupExact | spell/symspell.go:177-208 | the gathered results, sorted, hold exactly the stored words within the cap, and are non-empty when such a word exists |
| SpellSymspell.GatheredPerm | spell/symspell.go:206 | sorting keeps what is known of each candidate and their distinct terms |
| Tokenizer.Reconstructs | tokenizer/tokenizer.go:83-86 | concatenating the texts of a tiling gives back the input |
| Tokenizer.WordTokens | tokenizer/tokenizer.go:87-92 | nil exactly for ""; otherwise exactly the scanner's tokens, which tile the input, concatenate back to it and follow the classification |
| Tokenizer.SentenceTokens | tokenizer/tokenizer.go:116-121 | nil exactly for ""; otherwise exactly the sentence splitter's tokens, which tile the input and concatenate back to it, ending a sentence at every newline break and every unabbreviated terminal mark before whitespace and a capital |
| Tokenizer.WordTextsAppend | tokenizer/tokenizer.go:103-107 | picking the Word texts distributes over concatenation, so the order of the tokens is kept |
| Tokenizer.WordTextsExactly | tokenizer/tokenizer.go:103-107 | every text kept is a Word token's, and every Word token's text is kept |
| Tokenizer.WordTextsNone | tokenizer/tokenizer.go:103-107 | no Word tokens, no words |
| Tokenizer.Words | tokenizer/tokenizer.go:97-109 | nil exactly for ""; otherwise exactly the Word texts of the scanner's tokens, in order |
| Tokenizer.LettersAreOneWord | tokenizer/tokenizer.go:97-109 | a run of ASCII letters is its own single word |
| Tokenizer.Sentences | tokenizer/tokenizer.go:124-134 | nil exactly for ""; otherwise the texts of exactly the sentence splitter's tokens, one string per sentence, in order |
| TokenizerTypes.TypeNamesOk | tokenizer/tokenizer.go:47-68 | the eight names are distinct and none looks like the TokenType(n) fallback |
| TokenizerTypes.TypeStringInjective | tokenizer/tokenizer.go:47-68 | different token types print differently |
| TokenizerTypes.TilesSnoc | tokenizer/tokenizer.go:83-86 | appending the next slice to a tiling extends it |
| TokenizerTypes.TilesInit | tokenizer/tokenizer.go:83-86 | dropping the last token of a tiling leaves a tiling up to that token's start |
| TokenizerTypes.TilesConcat | tokenizer/tokenizer.go:83-86 | a tiling of a prefix concatenates back to that prefix |
| TokenizerScanner.ScanForward | tokenizer/scanner.go:50-56 | the forward loop stops at the end of the run of matching runes |
| TokenizerScanner.ScanBackward | tokenizer/scanner.go:162-169 | the backward loop stops at the start of the run of matching runes |
| TokenizerScanner.SpaceIsNothingElse | tokenizer/scanner.go:47-79 | no rune is both white space and a letter, digit or punctuation mark, so the Space branch never hides another |
| TokenizerScanner.UrlPrefixLen | tokenizer/scanner.go:108-122 | 7 for http://, 8 for https://, any letter case, and 0 otherwise, only when 8 runes remain |
| TokenizerScanner.UrlEnd | tokenizer/scanner.go:107-154 | a URL runs past its protocol to white space or the end, holds no white space, and loses at most one trailing . , ! ? |
| TokenizerScanner.ScanURL | tokenizer/scanner.go:107-154 | the loops accept exactly when UrlEnd does and end where it does |
| TokenizerScanner.LocalStart | tokenizer/scanner.go:160-180 | the local part is a non-empty run of local runes ending at the @ that does not start with a dot |
| TokenizerScanner.DomainEnd | tokenizer/scanner.go:182-197 | the domain holds only domain runes and does not end with a dot |
| TokenizerScanner.EmailSpan | tokenizer/scanner.go:159-211 | an accepted email has a local part of local runes not starting with a dot and a domain of domain runes around the @ |
| TokenizerScanner.EmailHasTld | tokenizer/scanner.go:199-208 | an accepted domain has a dot after its first rune followed by two ASCII letters or more up to its end |
| TokenizerScanner.ScanEmail | tokenizer/scanner.go:159-211 | the loops accept exactly when EmailSpan does and give its span |
| TokenizerScanner.DotGroupsShape | tokenizer/scanner.go:223-234 | every dot taken is followed by exactly three digits inside the token |
| TokenizerScanner.NumberShape | tokenizer/scanner.go:215-247 | a number holds ASCII digits, dots each followed by exactly three digits, and commas each followed by a digit |
| TokenizerScanner.ScanNumber | tokenizer/scanner.go:215-247 | the loops give the Number token NumberEnd describes, and it is non-empty when it starts with an ASCII digit |
| TokenizerScanner.JoinedRun | tokenizer/scanner.go:280-283 | extending past a letter-or-digit run keeps the word shape |
| TokenizerScanner.WordExtendShape | tokenizer/scanner.go:267-315 | every extension keeps the word shape |
| TokenizerScanner.WordShape | tokenizer/scanner.go:253-318 | a word starts with a letter and holds letters and digits, hyphens between letters or digits and apostrophes between letters |
| TokenizerScanner.ConsumeWordOrDigitRun | tokenizer/scanner.go:345-354 | the loop stops at the end of the letter-or-digit run |
| TokenizerScanner.WordExtendJoin | tokenizer/scanner.go:268-315 | the word extends through each join and stops where there is none |
| TokenizerScanner.WordJoin | tokenizer/scanner.go:269-314 | one pass of the extension loop lands where JoinEnd says |
| TokenizerScanner.ScanWord | tokenizer/scanner.go:253-318 | the loops give the Word token WordEnd describes |
| TokenizerScanner.TrimmedTiles | tokenizer/scanner.go:323-342 | trimming a tiling at an earlier offset leaves a tiling up to the email's start |
| TokenizerScanner.TilesMeasured | tokenizer/scanner.go:323-342 | a tiling records each token's offsets consistently with its text |
| TokenizerScanner.TrimTokensForEmail | tokenizer/scanner.go:323-342 | the loop drops and cuts exactly as TrimmedForEmail says, keeping each kept token's start and type and shortening its end |
| TokenizerScanner.SpaceRun | tokenizer/scanner.go:47-58 | a Space token is a whole non-empty run of white space |
| TokenizerScanner.HyphenRun | tokenizer/scanner.go:83-91 | a punctuation run started by a hyphen takes every hyphen after it |
| TokenizerScanner.TrimmedClassified | tokenizer/scanner.go:36-43 | replacing overlapped tokens by the email keeps the classification |
| TokenizerScanner.ClassifiedSnoc | tokenizer/scanner.go:19-102 | appending a classified token that is not a second Space in a row keeps the classification |
| TokenizerScanner.EmitSolid | tokenizer/scanner.go:19-102 | appending a non-space token keeps the scanner's state |
| TokenizerScanner.EmailSolid | tokenizer/scanner.go:159-211 | an email holds no white space |
| TokenizerScanner.NumberSolid | tokenizer/scanner.go:215-247 | a number holds no white space |
| TokenizerScanner.WordSolid | tokenizer/scanner.go:253-318 | a word holds no white space |
| TokenizerScanner.TryURL | tokenizer/scanner.go:26-33 | rule 1 advances and keeps the tiling when scanURL accepts |
| TokenizerScanner.TryEmail | tokenizer/scanner.go:35-44 | rule 2 advances and keeps the tiling when scanEmail accepts |
| TokenizerScanner.EmitSpace | tokenizer/scanner.go:46-59 | the white-space branch advances and keeps the tiling |
| TokenizerScanner.EmitNumber | tokenizer/scanner.go:61-67 | the number branch advances on an ASCII digit and keeps the tiling |
| TokenizerScanner.EmitWord | tokenizer/scanner.go:69-75 | the letter branch advances and keeps the tiling |
| TokenizerScanner.EmitPunctuation | tokenizer/scanner.go:77-94 | the punctuation branch advances and keeps the tiling |
| TokenizerScanner.EmitSymbol | tokenizer/scanner.go:96-98 | the fallback advances by one rune and keeps the tiling |
| TokenizerScanner.Scan | tokenizer/scanner.go:19-102 | the tokens are exactly those of the rule-by-rule scan (URL, then email, then the token the rune starts), so they tile the input and follow the classification |
| TokenizerScanner.Dispatch | tokenizer/scanner.go:24-99 | one pass of the loop yields exactly the next scan step and keeps the loop invariant |
| TokenizerScanner.EmitSimple | tokenizer/scanner.go:46-98 | with no URL or email at i, the rune's own rule gives its token: a space run, a number, a word, a punctuation mark (a hyphen run) or one symbol rune |
| TokenizerScanner.WordTokensShape | tokenizer/scanner.go:19-102 | the scan's tokens tile the input and follow the classification |
| TokenizerScanner.LettersAreOneWord | tokenizer/scanner.go:19-102 | a run of ASCII letters scans as a single Word token |
| TokenizerScanner.StepState | tokenizer/scanner.go:24-99 | each step keeps the tokens a classified tiling of the text read so far |
| TokenizerScanner.NonAsciiDigitStalls | tokenizer/scanner.go:62-67 | an Arabic-Indic zero reaches the number branch as written, which consumes nothing there |
| TokenizerSentence.WordBeforeShape | tokenizer/sentence.go:229-257 | the word is the maximal letter run ending where the dots before the position begin, and empty exactly when no letter precedes them |
| TokenizerSentence.FindWordBefore | tokenizer/sentence.go:229-257 | the two backward loops give what WordBefore describes |
| TokenizerSentence.UpperIsNotSpace | tokenizer/sentence.go:140-153 | no upper-case rune is white space |
| TokenizerSentence.FollowedByIff | tokenizer/sentence.go:140-153 | followed-by holds exactly when an upper-case rune comes after a non-empty white-space run |
| TokenizerSentence.FollowedByWhitespaceUppercase | tokenizer/sentence.go:140-153 | the loop with its flag decides exactly FollowedBy |
| TokenizerSentence.GreedyConfirms | tokenizer/sentence.go:191-223 | every path of the greedy extension confirms the match |
| TokenizerSentence.AbbreviationIff | tokenizer/sentence.go:158-185 | a dot is an abbreviation dot exactly when a word precedes it and that word lower-cased with its dot is listed, or it is "s" after "və" |
| TokenizerSentence.IsAbbreviationAt | tokenizer/sentence.go:158-185 | the loops decide exactly IsAbbreviation |
| TokenizerSentence.Advance | tokenizer/sentence.go:122 | moving over newline-free text keeps the sentence state |
| TokenizerSentence.Emit | tokenizer/sentence.go:40-46 | emitting a sentence at a break keeps the tiling, the breaks and the newline ends |
| TokenizerSentence.EmitPunct | tokenizer/sentence.go:93-101 | emitting at a punctuation break moves the state to the break |
| TokenizerSentence.NewlineRun | tokenizer/sentence.go:33-49 | a double newline: the whole newline run joins the sentence, which ends there |
| TokenizerSentence.DotRun | tokenizer/sentence.go:54-72 | three or more dots are one mark, a break when white space and a capital follow |
| TokenizerSentence.Terminal | tokenizer/sentence.go:74-103 | an abbreviation dot is skipped; otherwise the whole . ? ! cluster is one mark |
| TokenizerSentence.ClusterBreak | tokenizer/sentence.go:82-101 | a cluster followed by white space and a capital is a break unless it is a lone abbreviation dot |
| TokenizerSentence.Cluster | tokenizer/sentence.go:82-103 | the cluster loop takes every . ? ! and breaks when white space and a capital follow |
| TokenizerSentence.EllipsisRune | tokenizer/sentence.go:106-119 | U+2026 is a break when white space and a capital follow |
| TokenizerSentence.Step | tokenizer/sentence.go:122 | any other rune, a single newline included, stays in the sentence |
| TokenizerSentence.SentenceTokens | tokenizer/sentence.go:25-136 | exactly the sentences the loop gives (SentencesOf): they tile the input; every one but the last ends at a break, and every run of two or more newlines and every cut (a terminal run not opened by an abbreviation dot, or an ellipsis, before whitespace and a capital) ends one |
| TokenizerSentence.CutIsBreak | tokenizer/sentence.go:74-119 | every cut is a punctuation break |
| TokenizerSentence.MarkEndsSentence | tokenizer/sentence.go:74-103 | a lone ? or ! before whitespace and a capital ends a sentence, and so does a lone dot there that closes no abbreviation (a mark not preceded by another terminal mark) |
| TokenizerSentence.AbbreviationDotsIff | tokenizer/sentence.go:158-185 | a position is in the abbreviation-dot set exactly when it holds a dot that closes an abbreviation |
| TokenizerSentence.VeSJoined | tokenizer/sentence.go:168-175 | in "və.s. Bu" the dot after s closes the "və s." abbreviation |
| TokenizerSentence.VeSSpaced | tokenizer/sentence.go:162-175 | in "və s. Bu" the word before "s" is empty, so the "və s." case does not apply and the dot ends a sentence |
| TokenizerSentence.FinalSentence | tokenizer/sentence.go:125-133 | the rest after the last break is the final sentence |
| TokenizerSentence.SentStep | tokenizer/sentence.go:33-122 | each pass of the loop moves the position forward and stays within the text |
| TokenizerSentence.Next | tokenizer/sentence.go:33-122 | after one pass the sentence start is at or before the position, which has moved forward within the text |
| TokenizerSentence.NextIs | tokenizer/sentence.go:40-46 | a pass that breaks appends the sentence up to where it stops, and one that does not only moves the position |
| TokenizerSentence.NewlineStep | tokenizer/sentence.go:33-49 | a double newline takes its whole newline run and breaks |
| TokenizerSentence.DotRunStep | tokenizer/sentence.go:54-72 | three dots take the whole dot run, which breaks exactly when whitespace and a capital follow |
| TokenizerSentence.EllipsisStep | tokenizer/sentence.go:106-119 | U+2026 is one mark, which breaks exactly when whitespace and a capital follow |
| TokenizerSentence.OtherStep | tokenizer/sentence.go:122 | any other rune, a lone newline included, is passed over without a break |
| TokenizerSentence.SplitStep | tokenizer/sentence.go:31-123 | running the loop from a position is one pass followed by running it from where that pass stops |
| TokenizerSentence.PassPlain | tokenizer/sentence.go:122 | runes no rule applies to are passed over without a break |
| TokenizerSentence.PassOver | tokenizer/sentence.go:122-133 | when only such runes are left, the rest becomes the last sentence |
| TokenizerSentence.SplitFromTiles | tokenizer/sentence.go:25-136 | run to the end from a tiling of the text before the sentence start, the loop gives a tiling of the text |
| TokenizerSentence.SentencesTile | tokenizer/sentence.go:25-136 | the sentences of a text tile it |
| TokenizerSentence.DrEllipsisBreaks | tokenizer/sentence.go:54-72 | "dr... Bu" splits into "dr..." and " Bu": three dots are one mark before the abbreviation test is reached |
| TokenizerSentence.DrQuestionBreaks | tokenizer/sentence.go:74-103 | "Dr.? Bu" splits into "Dr.?" and " Bu": the abbreviation dot is skipped and the ? after it ends the sentence |
| TokenizerSentence.QuestionAfterDot | tokenizer/sentence.go:82-103 | in "Dr.? Bu" the loop run from the dot ends the first sentence after the question mark |
| TokenizerSentence.Pass | tokenizer/sentence.go:33-122 | one pass applies the rule for the rune at the position in the loop's order and gives exactly the next loop state, keeping the sentence invariant |
| TokenizerSentence.OtherRune | tokenizer/sentence.go:122 | a rune no rule applies to is passed over, giving the next loop state |
| TokenizerSentence.SkipDot | tokenizer/sentence.go:75-80 | an abbreviation dot is passed over without a break, giving the next loop state |
| Translit.ResolveG | translit/translit.go:24-27 | Г reads as Q whenever the text has Ҝ; otherwise as G before a front vowel and Q elsewhere, keeping the letter case |
| Translit.ConvertCyr | translit/translit.go:40-54 | the output is never longer than the input and holds no soft or hard sign |
| Translit.CyrillicToLatin | translit/translit.go:30-57 | "" stays ""; the result holds no soft or hard sign |
| Translit.ConvertCyrAt | translit/translit.go:40-54 | without signs, each input rune gives exactly one rune at the same position |
| Translit.ConvertCyrPerRune | translit/translit.go:40-54 | runes outside the table pass through and table runes are translated, position for position |
| Translit.ConvertCyrLength | translit/translit.go:45-46 | the output is shorter than the input by exactly the number of signs dropped |
| Translit.LatinToCyrillic | translit/translit.go:64-81 | rune by rune through the table, so the rune count is kept and every other rune passes through |
| Translit.LatRuneBack | translit/translit.go:64-81 | a Latin rune other than Q goes back to itself through the Cyrillic conversion |
| Translit.ConvertBack | translit/translit.go:30-81 | the conversion loop undoes LatinToCyrillic on text without Cyrillic runes whose Г all read back right |
| Translit.RoundTrip | translit/translit.go:30-81 | Latin text without Cyrillic runes comes back unchanged, provided it has no Q or it has a G |
| Translit.QBeforeFrontVowel | translit/translit.go:24-27 | the side condition is needed: "Qe" comes back as "Ge" |
| TranslitMapping.TablesInverse | translit/mapping.go:6-76 | every Latin letter but Q and q comes back through the Cyrillic table; Q and q go to Г and г, which are not keys |
| TranslitMapping.UpperInverse | translit/mapping.go:6-76 | the same for the upper-case letters |
| TranslitMapping.LowerInverse | translit/mapping.go:6-76 | the same for the lower-case letters |
| TranslitMapping.ExtendedInverse | translit/mapping.go:6-76 | the same for the letters outside ASCII |
| TranslitMapping.LatToCyrInjective | translit/mapping.go:43-76 | distinct Latin letters never share a Cyrillic letter |
| TranslitMapping.ShortIAndJe | translit/mapping.go:18-19 | the Russian short I and the Azerbaijani Je both read as Y |
| TranslitMapping.SpecialLettersNotKeys | translit/mapping.go:3-10 | Г, г and the signs are not keys, so the loop's own cases never shadow the table |
| TranslitMapping.GheNotKey | translit/mapping.go:10 | Г and г are not keys |
| TranslitMapping.SignsNotKeys | translit/mapping.go:5 | the soft and hard signs are not keys |
| TranslitMapping.SoftSignNotKey | translit/mapping.go:5 | Ь and ь are not keys |
| TranslitMapping.HardSignNotKey | translit/mapping.go:5 | Ъ and ъ are not keys |
| Validate.Score | validate/validate.go:269-285 | the score lies from 0 to 100 and is 100 exactly when nothing is deducted |
| Validate.DeductionCounts | validate/validate.go:176-178 | 10 per error, 3 per warning and 1 per informational issue |
| Validate.ScorePerfect | validate/validate.go:269-285 | 100 exactly when no issue carries one of the three severities |
| Validate.ScoreAppend | validate/validate.go:269-285 | deductions add up, so adding issues never raises the score |
| Validate.CalculateScore | validate/validate.go:269-285 | the loop computes Score |
| Validate.IssueLessPreorder | validate/validate.go:212-227 | start ascending, then severity descending, is a preorder |
| Validate.SpellingBound | validate/checks.go:41-84 | the spelling check stays within the cap and is empty exactly for a Cyrillic text or when no word is misspelt |
| Validate.CollectedBound | validate/validate.go:200-209 | the checks keep the spelling issues first and never pass the cap, so the truncation cuts nothing |
| Validate.CappedEmpty | validate/validate.go:200-204 | a capped check leaves an empty list exactly when it starts empty and no token yields an issue |
| Validate.CollectedEmpty | validate/validate.go:200-204 | the checks find nothing exactly when each of them finds nothing |
| Validate.ValidateTokens | validate/validate.go:198-232 | the report holds the capped issues, sorted by start then severity, and scores them |
| Validate.Validate | validate/validate.go:188-233 | an empty, oversized or token-less text gets a perfect empty report; otherwise at most 1000 sorted issues from the four checks, scored from 0 to 100 |
| Validate.AnyError | validate/validate.go:257-261 | true exactly when one of the issues is an error |
| Validate.CappedErrors | validate/checks.go:41-84 | a capped check built from errors holds only errors |
| Validate.SpellingErrors | validate/checks.go:41-84 | the spelling check reports only errors, and one exactly when a word is misspelt in a non-Cyrillic text |
| Validate.LayoutErrors | validate/checks.go:208-243 | the layout check reports only errors, and one exactly when a word has a wrong-script homoglyph |
| Validate.ErrorsFound | validate/validate.go:257-261 | a list of errors holds an error exactly when it is non-empty |
| Validate.IsValidTokens | validate/validate.go:250-264 | valid exactly when neither the spelling nor the layout check finds an error |
| Validate.IsValid | validate/validate.go:240-265 | true for an empty or oversized text; otherwise the tokens are the scanner's, and the answer is true exactly when neither check finds an error in them |
| ValidateChecks.Take | validate/validate.go:207-209 | a prefix of at most n elements |
| ValidateChecks.TakeCons | validate/validate.go:207-209 | taking from a list that starts with o takes o first |
| ValidateChecks.CappedTake | validate/checks.go:97-100 | a capped check appends the first issues the tokens yield, as many as fit under the cap, and leaves a full list unchanged |
| ValidateChecks.CappedStep | validate/checks.go:97-100 | one step of the capped check: the token's issue, then the rest |
| ValidateChecks.SomesNone | validate/checks.go:97-100 | a check appends nothing exactly when no token yields an issue |
| ValidateChecks.CappedBound | validate/checks.go:97-100 | a capped check only appends and never takes the list past the cap |
| ValidateChecks.RunEnd | validate/checks.go:158-164 | the run of identical punctuation tokens ends at the first token that differs |
| ValidateChecks.PunctFound | validate/checks.go:96-184 | one finding per token, the one the punctuation rules give there |
| ValidateChecks.RunEndIs | validate/checks.go:158-164 | a maximal block of k identical tokens ends k tokens on |
| ValidateChecks.RepeatedOnce | validate/checks.go:152-180 | a run of k >= 2 identical punctuation tokens is reported once, at its start, spanning the run with the text repeated k times, unless it is exactly three dots |
| ValidateChecks.MissingSpace | validate/checks.go:135-150 | a sentence end followed by a word or number is a missing-space warning suggesting the end plus a space |
| ValidateChecks.AppendPunctuationIssues | validate/checks.go:96-184 | the loops compute the capped punctuation check |
| ValidateChecks.CyrToLatScripts | validate/checks.go:17-22 | the Cyrillic table maps Cyrillic runes to Latin ones |
| ValidateChecks.LatToCyrScripts | validate/checks.go:25-30 | the Latin table maps Latin runes to Cyrillic ones |
| ValidateChecks.HomoglyphInverse | validate/checks.go:17-30 | the two homoglyph tables are inverse to each other |
| ValidateChecks.CyrToLatBack | validate/checks.go:17-30 | a Cyrillic homoglyph comes back through the Latin table |
| ValidateChecks.LatToCyrBack | validate/checks.go:17-30 | a Latin homoglyph comes back through the Cyrillic table |
| ValidateChecks.HomoglyphTables | validate/checks.go:17-30 | no rune is in both tables, so no table maps a rune to itself |
| ValidateChecks.Replaced | validate/checks.go:281-296 | every rune swapped through the table, rune for rune |
| ValidateChecks.ReplaceHomoglyphs | validate/checks.go:249-297 | found exactly when a wrong-script table rune occurs, and then the fully swapped word |
| ValidateChecks.FindForeign | validate/checks.go:249-279 | the first loop finds a wrong-script table rune exactly when there is one |
| ValidateChecks.SwapAll | validate/checks.go:281-296 | the second loop swaps every table rune |
| ValidateChecks.SwapClean | validate/checks.go:249-297 | a swapped rune is never one to replace, and a rune to replace always changes |
| ValidateChecks.ReplacedClean | validate/checks.go:249-297 | a replacement changes the word and leaves nothing to replace |
| ValidateChecks.IsNonDominantScript | validate/checks.go:349-370 | the loop decides exactly NonDominant |
| ValidateChecks.AllHomoglyphs | validate/checks.go:375-396 | the loop decides exactly whether every letter is a homoglyph, and there is one |
| ValidateChecks.RuneInTable | validate/checks.go:380-393 | one pass of the loop classifies the rune |
| ValidateChecks.AllHomoglyphsLayout | validate/checks.go:305-345 | the words the mixed-script check skips as all homoglyphs are the layout check's |
| ValidateChecks.HomoglyphForeign | validate/checks.go:17-30 | every table key is in the other script |
| ValidateChecks.LayoutFound | validate/checks.go:208-243 | one finding per token, the one the layout rule gives there |
| ValidateChecks.AppendLayoutIssues | validate/checks.go:208-243 | nothing without a confident Latin or Cyrillic text; otherwise the capped layout check |
| ValidateChecks.MixedFound | validate/checks.go:305-345 | one finding per token, the one the mixed-script rule gives there |
| ValidateChecks.AppendMixedScriptIssues | validate/checks.go:305-345 | nothing without a confident Latin or Cyrillic text; otherwise the capped mixed-script check |
| ValidateChecks.SpellFound | validate/checks.go:47-83 | one finding per token, the one the spelling rule gives there |
| ValidateChecks.Unsuggested | validate/checks.go:75-81 | the issues with their suggestions blanked, one for one |
| ValidateChecks.UnsuggestedSnoc | validate/checks.go:75-81 | blanking distributes over concatenation |
| ValidateChecks.SuggestionOk | validate/checks.go:66-81 | the issue for a misspelt word carries the case-adjusted first suggestion of Suggest: the top whole-word hit when there is one, else the top stem-level correction when a reconstruction re-analyses to a known stem, and "" only when the lookup can reach no word |
| ValidateChecks.MisspeltIssue | validate/checks.go:66-81 | the issue for a misspelt token is an error at its span whose suggestion is the word's case put onto the first of Suggest's results at distance 2, or "" when there are none |
| ValidateChecks.SpellingIssue | validate/checks.go:52-81 | one token yields at most the spelling finding, whose suggestion is the case-adjusted first of Suggest's results |
| ValidateChecks.AppendSpellingIssues | validate/checks.go:41-84 | nothing under a Cyrillic text; otherwise one error per misspelt word up to the cap, each suggesting the word's case put onto the first of Suggest's results at distance 2, or "" when there are none |
| MorphFsm.AllParsesFound | morph/fsm.go:42-50 | walking from every terminal state in turn yields only valid analyses of the word |
| MorphFsm.Insert | morph/fsm.go:57-67 | inserting an analysis adds exactly that analysis to the list |
| MorphFsm.InsertRanked | morph/fsm.go:57-67 | inserting into a ranked list keeps it ranked |
| MorphFsm.DedupUnique | morph/fsm.go:240-259 | dedup keeps no key twice |
| MorphFsm.DedupKeys | morph/fsm.go:240-259 | dedup keeps every key that occurs |
| MorphSuffixes.PluralPossessiveSpelled | morph/suffixes.go:56-126 | the plural and possessive surfaces are non-empty lowercase Azerbaijani letters |
| MorphSuffixes.CaseSpelled | morph/suffixes.go:127-191 | the case surfaces are non-empty lowercase Azerbaijani letters |
| MorphSuffixes.DerivationVoiceSpelled | morph/suffixes.go:192-310 | the derivational, copula, negation and voice surfaces are non-empty lowercase Azerbaijani letters |
| MorphSuffixes.VerbSpelled | morph/suffixes.go:311-455 | the tense, mood and person surfaces are non-empty lowercase Azerbaijani letters |
| MorphSuffixes.PluralPossessiveLongestFirst | morph/suffixes.go:56-126 | the plural and possessive surfaces run longest first |
| MorphSuffixes.CaseLongestFirst | morph/suffixes.go:127-191 | the case surfaces run longest first |
| MorphSuffixes.DerivationVoiceLongestFirst | morph/suffixes.go:192-310 | the derivational, copula, negation and voice surfaces run longest first |
| MorphSuffixes.VerbLongestFirst | morph/suffixes.go:311-455 | the tense, mood and person surfaces run longest first |
| NerPatterns.LabeledStarts | ner/patterns.go:156-165 | the labeled starts are exactly the starts of the labeled matches |
| NerPatterns.AppendLabeledFin | ner/patterns.go:159-169 | the first loop appends one labeled entity per labeled match and records exactly their starts |
| NerPatterns.AppendBareFin | ner/patterns.go:171-187 | the second loop appends exactly the bare matches that do not start at a labeled code and mix letters and digits |
| NerPatterns.UrlEntitiesAt | ner/patterns.go:109-124 | the k-th URL entity is the k-th match's |
| NerEntity.TypeNamesOk | ner/ner.go:61-66 | the seven names are distinct and none looks like the EntityType(n) fallback |
| NerEntity.Quote | ner/ner.go:100-107 | a quoted text is enclosed in double quotes and holds no control rune |
| NerEntity.Escape | ner/ner.go:100-107 | a rune escapes to a non-empty text with no control rune; a plain rune stands for itself |
| NerEntity.QuotePlain | ner/ner.go:100-107 | a text with no control rune, quote or backslash is quoted verbatim |
| NumtextOrdinal.ConvertVowelled | numtext/convert.go:110-115 | every word of a cardinal has a vowel |
| NumtextWords.OnesAgree | numtext/parse.go:11-38 | the parser reads every digit word as its digit |
| NumtextWords.TensAgree | numtext/parse.go:11-38 | the parser reads every tens word as its value |
| NumtextWords.MagnitudesAgree | numtext/parse.go:11-38 | the parser reads every magnitude word as its power of ten |
| Calendar.WeekShift | datetime/patterns.go:668-690 | n days on, the weekday moves on by n modulo 7 |
| KeywordsTextRank.CoSymmetric | keywords/textrank.go:45-55 | the co-occurrence count of x with y is that of y with x |
| KeywordsTextRank.CoNear | keywords/textrank.go:45-55 | a positive co-occurrence count means the two stems occur within the window of each other |

## Left out

- Offsets are rune indices, not UTF-8 byte offsets: tokens, chunks, entities, date matches and validation issues carry the position of a rune in the rune sequence, so `s[t.Start:t.End] == t.Text` holds here with rune slicing (tokenizer/tokenizer.go:73-74, tokenizer/tokenizer_test.go:280). Chunker.BuildRuneOffsets models the byte-offset table itself.
- Unicode tables are truncated: Unicode.IsLetter, Unicode.IsDigit, Unicode.IsPunct, Unicode.IsUpper and Unicode.ToLower cover ASCII, Latin-1, Latin Extended-A, schwa, Cyrillic with its Azerbaijani letters and a few other letter blocks, not all of Unicode; a rune outside them (for example U+1D7E2, which tokenizer/tokenizer_test.go:284-286 expects inside one Word) is classified as neither letter nor digit here.
- SpellSymspell.Lookup: the delete index is keyed by the delete string itself, not by its 32-bit FNV-1a hash (spell/symspell.go:29, 69, 174). A hash collision makes the source also score the words stored under a colliding key, and keep those within the distance cap; those extra suggestions are not modelled.
- SpellSymspell.Lookup: the order among suggestions that tie on distance and frequency is not stated. The sort keeps the gather order (spell/symspell.go:212-222, proved for SortSuggestions), but the order in which the walk over the delete keys meets the words is not part of Lookup's contract, so CorrectWord's pick among such ties is not pinned either.
- Spell.StemSuggest: each returned term is derived from an analysis of the word, and every reconstruction from the stem lookups that re-analyses to a known stem is among them, but the contract does not say that no term appears twice, nor, when two lookups rebuild the same word, that the distance and frequency kept are those of the first analysis in order (spell/spell.go:182-185).
- Spell.Suggest: its stem-level branch inherits the gap just named for Spell.StemSuggest.
- Spell.CorrectWord: when its top correction comes from the stem-level branch, it inherits the gap named for Spell.StemSuggest, so which distance and frequency ranked a reconstruction rebuilt twice is not pinned.
- NerEntity.Quote: Go's %q also escapes the non-ASCII runes that unicode.IsPrint rejects (U+00A0, U+200B, U+FEFF and others) as \u or \U sequences; the model escapes the ASCII control runes only and keeps every other rune verbatim, because unicode.IsPrint's tables are not modelled.
- ValidateChecks.IsCyrillic: follows Go's unicode.Cyrillic table as of Unicode 15.0; a Go release built on another Unicode version may differ.
- MorphFsm.TerminalStates: the terminal states come in first-occurrence order of the suffix table, while morph/fsm.go:19-28 collects them from a Go map, whose iteration order is unspecified; the final sort is unstable (morph/fsm.go:57), so the order of analyses that tie on every sort key is not modelled.
- The regular expressions of ner/patterns.go and datetime/patterns.go are not modelled: their match lists are parameters of the passes.
- The embedded dictionaries and lexicons (dict.txt, freq.txt, lexicon.txt, the stopword list, the spelling frequency list) are parameters; the keyword stopwords are a constant set copied from the list.
- Language detection (detect/detect.go) is not part of this model: Validate and IsValid take the detected script and whether its confidence reaches 0.5 as a parameter.
- time.Now and time.Time are not modelled: the reference date is a parameter (year, month, day), AddDate is day arithmetic on that triple, and time zones are left out.
- The TF-IDF scorer (keywords/tfidf.go), the PageRank iteration in keywords/textrank.go and strconv.ParseFloat are not modelled: their results are parameters. Sentiment scores are `real`, not float64.
- All MarshalJSON and UnmarshalJSON methods (datetime, morph, ner, sentiment, validate) are library calls and are left out.
- Sentiment Score and IsPositive (sentiment/sentiment.go:104-111) are one-line wrappers over Analyze's result and are not modelled separately; Result.String is left out.
- translit/context.go is not part of this model: Translit.ResolveG follows the rule stated at translit/translit.go:24-27. ArabicToLatin and LatinToArabic (translit/translit.go:84-87) return their input and are not modelled.
- MorphDict.Parse takes a line's first rune as its part of speech, where morph/dict.go:34 takes its first byte; the two agree on the ASCII letters the dictionary generator writes.
- NumtextParse.Parse lower-cases with Unicode.Lower, built on the truncated tables above, where numtext/parse.go calls strings.ToLower.
- The I/O of the scripts (read_arrow and main in scripts/extract_reviews.py, loadReviews, the write functions, statistics and evaluation output of scripts/buildlexicon.go, file handling in cmd/dictgen/main.go) is left out; only their rules are modelled.
- The end-to-end and smoke-test programs (e2e, cmd/smoketest), concurrency and the package-level "safe for concurrent use" claims are left out.

## Findings

| source | as written | input that shows it | evidently intended | confidence | as-written member | corrected member |
|---|---|---|---|---|---|---|
| scripts/extract_reviews.py:58-71 | the ambiguity pass groups scores by content over the already deduplicated rows, where each content occurs once, so it never drops a row | two rows with the same content of 10+ characters and scores 1 and 5 | drop every content posted with different scores, measured over all input rows | not executed | ExtractReviews.AmbiguityFilterIsNoOp | ExtractReviews.CleanIntendedUnambiguous |
| numtext/parse.go:93-99 | the group is multiplied by one hundred without a range check, so int64 wraps | "on səkkiz" followed by nine "yüz" parses to -446744073709551616 with no "mənfi" | the out-of-range error, as exact arithmetic gives | not executed | NumtextParse.OverflowAsWritten | NumtextParse.ParseSign |
| tokenizer/scanner.go:62-67 | every rune unicode.IsDigit accepts goes to scanNumber, which consumes ASCII digits only | "٠" (Arabic-Indic zero): the token is empty and the position never advances | only ASCII digits start a number; other digits fall through to Symbol | not executed | TokenizerScanner.NonAsciiDigitStalls | TokenizerScanner.Scan |
| chunker/recursive.go:210-213 | walkBackRunes is bounded by the previous fragment's end, which is the current start for adjacent fragments, so no overlap is applied | any text split into two adjacent fragments with overlap > 0 | walk back into the previous fragment, bounded by its start | not executed | ChunkerRecursive.OverlapNoOpAsWritten | ChunkerRecursive.OverlapApplied |
| numtext/convert.go:140-160 | after stripping one sign, strconv.ParseInt accepts a second one | "--5" reads "beş", a positive five | a second sign is rejected, and a minus never reads as a positive number | not executed | NumtextFloat.DoubleSignAsWritten | NumtextFloat.IntegerTextNegative |
