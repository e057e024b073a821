/**
 * The dictionary generator's rules: which Wiktionary part-of-speech tags
 * are kept and under which one-letter category, which lower-cased words
 * are acceptable lemmas, how a verb's infinitive suffix is removed, which
 * noun entries are dropped as inflected forms of other nouns, and the
 * order of the output lines ("<category><lemma>", by lemma, then
 * category).
 *
 * Reading the JSON lines of the dump is not modelled: the generator is
 * given the decoded (word, pos) pairs, None standing for a line that does
 * not decode.
 */
module Dictgen {
  import opened Wrappers
  import Unicode
  import AzCase
  import StrOrder
  import Sorting

  const MinLemmaRunes: nat := 2

  // ---------------------------------------------------------------------
  // mapPOS
  // ---------------------------------------------------------------------

  const SkippedTags: set<string> := {"suffix", "prefix", "character"}
  const NounTags: set<string> := {"noun", "name", "pron", "num", "det"}
  const AdverbTags: set<string> := {"adv", "intj", "conj", "postp", "particle"}

  /** mapPOS: affixes and characters are skipped; every other tag gets one of N, V, A, D, X. */
  function MapPOS(pos: string): (r: Option<char>)
    ensures r.None? <==> pos in SkippedTags
    ensures r == Some('N') <==> pos in NounTags
    ensures r == Some('V') <==> pos == "verb"
    ensures r == Some('A') <==> pos == "adj"
    ensures r == Some('D') <==> pos in AdverbTags
    ensures r == Some('X') <==> pos !in SkippedTags && pos !in NounTags && pos != "verb" && pos != "adj" && pos !in AdverbTags
  {
    if pos in SkippedTags then None
    else if pos in NounTags then Some('N')
    else if pos == "verb" then Some('V')
    else if pos == "adj" then Some('A')
    else if pos in AdverbTags then Some('D')
    else Some('X')
  }

  // ---------------------------------------------------------------------
  // isAcceptable
  // ---------------------------------------------------------------------

  predicate Cyrillic(r: char) { 'Ѐ' <= r <= 'ӿ' }
  predicate Arabic(r: char) { '؀' <= r <= 'ۿ' }

  /** A rune a lemma may hold: a letter, and no space, hyphen, digit, Cyrillic or Arabic. */
  predicate LemmaRune(r: char) {
    r != ' ' && r != '-' && !Unicode.IsDigit(r) && Unicode.IsLetter(r) && !Cyrillic(r) && !Arabic(r)
  }

  /** A lemma: at least two runes, all of them lemma runes. */
  predicate Acceptable(word: string) {
    |word| >= MinLemmaRunes && forall i :: 0 <= i < |word| ==> LemmaRune(word[i])
  }

  /** isAcceptable: the length check, then each rune's checks in turn. */
  method IsAcceptable(word: string) returns (b: bool)
    ensures b <==> Acceptable(word)
  {
    if |word| < MinLemmaRunes {
      return false;
    }
    for i := 0 to |word|
      invariant forall k :: 0 <= k < i ==> LemmaRune(word[k])
    {
      var r := word[i];
      if r == ' ' || r == '-' {
        return false;
      }
      if Unicode.IsDigit(r) {
        return false;
      }
      if !Unicode.IsLetter(r) {
        return false;
      }
      if 'Ѐ' <= r <= 'ӿ' {
        return false;
      }
      if '؀' <= r <= 'ۿ' {
        return false;
      }
    }
    return true;
  }

  // ---------------------------------------------------------------------
  // stripInfinitive
  // ---------------------------------------------------------------------

  /** isAzVowel: the nine lowercase Azerbaijani vowels. */
  predicate IsAzVowel(r: char) {
    r in {'a', 'e', 'ə', 'ı', 'i', 'o', 'ö', 'u', 'ü'}
  }

  /** A possible stem: at least two runes, one of them a vowel. */
  predicate ValidStem(s: string) {
    |s| >= MinLemmaRunes && exists i :: 0 <= i < |s| && IsAzVowel(s[i])
  }

  /** isValidStem: counts the runes and notes whether a vowel was seen. */
  method IsValidStem(s: string) returns (b: bool)
    ensures b <==> ValidStem(s)
  {
    var runes := 0;
    var hasVowel := false;
    for i := 0 to |s|
      invariant runes == i
      invariant hasVowel <==> exists k :: 0 <= k < i && IsAzVowel(s[k])
    {
      runes := runes + 1;
      if IsAzVowel(s[i]) {
        hasVowel := true;
      }
    }
    return runes >= MinLemmaRunes && hasVowel;
  }

  predicate HasSuffix(s: string, suf: string) {
    |suf| <= |s| && s[|s| - |suf|..] == suf
  }

  /** s without the suffix suf. */
  function Trim(s: string, suf: string): string
    requires HasSuffix(s, suf)
  {
    s[..|s| - |suf|]
  }

  /**
   * stripInfinitive: the word without -maq, else without -mək, when what
   * remains is a valid stem; otherwise the word unchanged.
   */
  function StripInfinitive(word: string): (r: string)
    ensures r == word || ((r + "maq" == word || r + "mək" == word) && ValidStem(r))
    ensures HasSuffix(word, "maq") && ValidStem(Trim(word, "maq")) ==> r == Trim(word, "maq")
    ensures HasSuffix(word, "mək") && ValidStem(Trim(word, "mək")) ==> r == Trim(word, "mək")
  {
    if HasSuffix(word, "maq") && ValidStem(Trim(word, "maq")) then
      assert Trim(word, "maq") + "maq" == word;
      Trim(word, "maq")
    else if HasSuffix(word, "mək") && ValidStem(Trim(word, "mək")) then
      assert Trim(word, "mək") + "mək" == word;
      Trim(word, "mək")
    else word
  }

  // ---------------------------------------------------------------------
  // Collecting the keys
  // ---------------------------------------------------------------------

  /** A decoded dump line: the word and its part-of-speech tag. */
  datatype KaikkiEntry = KaikkiEntry(word: string, pos: string)

  /**
   * The key a line contributes: its category followed by the lower-cased,
   * acceptable word, with a verb's infinitive suffix removed.
   */
  function KeyOf(e: Option<KaikkiEntry>): Option<string> {
    if e.None? then None
    else
      match MapPOS(e.value.pos)
      case None => None
      case Some(p) =>
        var head := AzCase.ToLower(e.value.word);
        if !Acceptable(head) then None
        else
          var stem := if p == 'V' then StripInfinitive(head) else head;
          if |stem| < MinLemmaRunes then None else Some([p] + stem)
  }

  /** Every key is a category letter followed by a lemma of two or more runes. */
  lemma KeyShape(e: Option<KaikkiEntry>)
    requires KeyOf(e).Some?
    ensures var k := KeyOf(e).value; |k| >= 1 + MinLemmaRunes && k[0] in {'N', 'V', 'A', 'D', 'X'}
  {
  }

  /** The keys of the lines. */
  ghost function KeysOf(entries: seq<Option<KaikkiEntry>>): set<string> {
    set i | 0 <= i < |entries| && KeyOf(entries[i]).Some? :: KeyOf(entries[i]).value
  }

  /** The main loop: each line that yields a key adds it to the seen set. */
  method CollectKeys(entries: seq<Option<KaikkiEntry>>) returns (seen: set<string>)
    ensures seen == KeysOf(entries)
  {
    seen := {};
    for i := 0 to |entries|
      invariant seen == KeysOf(entries[..i])
    {
      assert entries[..i + 1][..i] == entries[..i];
      ghost var before := entries[..i];
      if entries[i].None? {
        assert KeysOf(entries[..i + 1]) == KeysOf(before) by { KeysSnoc(entries, i); }
        continue;
      }
      var entry := entries[i].value;
      var p := MapPOS(entry.pos);
      if p.None? {
        KeysSnoc(entries, i);
        continue;
      }
      var head := AzCase.ToLower(entry.word);
      var ok := IsAcceptable(head);
      if !ok {
        KeysSnoc(entries, i);
        continue;
      }
      if p.value == 'V' {
        head := StripInfinitive(head);
      }
      if |head| < MinLemmaRunes {
        KeysSnoc(entries, i);
        continue;
      }
      var key := [p.value] + head;
      KeysSnoc(entries, i);
      seen := seen + {key};
    }
    assert entries[..|entries|] == entries;
  }

  /** One more line adds its key, if any. */
  lemma KeysSnoc(entries: seq<Option<KaikkiEntry>>, i: nat)
    requires i < |entries|
    ensures KeysOf(entries[..i + 1]) ==
      KeysOf(entries[..i]) + (if KeyOf(entries[i]).Some? then {KeyOf(entries[i]).value} else {})
  {
    var a := entries[..i];
    var b := entries[..i + 1];
    forall k | k in KeysOf(b) ensures k in KeysOf(a) + (if KeyOf(entries[i]).Some? then {KeyOf(entries[i]).value} else {}) {
      var j :| 0 <= j < |b| && KeyOf(b[j]).Some? && KeyOf(b[j]).value == k;
      if j < i {
        assert b[j] == a[j];
      }
    }
    forall k | k in KeysOf(a) ensures k in KeysOf(b) {
      var j :| 0 <= j < |a| && KeyOf(a[j]).Some? && KeyOf(a[j]).value == k;
      assert b[j] == a[j];
    }
    if KeyOf(entries[i]).Some? {
      assert b[i] == entries[i];
    }
  }

  // ---------------------------------------------------------------------
  // filterInflected
  // ---------------------------------------------------------------------

  const PlainSuffixes: seq<string> := ["lar", "lər", "ları", "ləri", "da", "də", "ta", "tə", "dan", "dən", "tan", "tən"]
  const RestoreSuffixes: seq<string> := ["i", "ı", "u", "ü", "in", "ın", "un", "ün"]

  /** The consonant a final y or ğ alternates with: k and q. */
  function Restore(c: char): Option<char> {
    if c == 'y' then Some('k') else if c == 'ğ' then Some('q') else None
  }

  /** head is a noun stem plus suf, and the stem is itself a noun entry. */
  predicate PlainHit(seen: set<string>, head: string, suf: string) {
    HasSuffix(head, suf) && |Trim(head, suf)| >= MinLemmaRunes && "N" + Trim(head, suf) in seen
  }

  /** A stem ending in y or ğ with that consonant turned back into k or q. */
  function Restored(stem: string): (r: Option<string>)
    requires stem != ""
    ensures r.Some? ==> |r.value| == |stem| && r.value[..|stem| - 1] == stem[..|stem| - 1]
  {
    match Restore(stem[|stem| - 1])
    case None => None
    case Some(c) => Some(stem[..|stem| - 1] + [c])
  }

  /** head is a noun stem ending in k or q, with the consonant softened, plus suf. */
  predicate RestoreHit(seen: set<string>, head: string, suf: string) {
    HasSuffix(head, suf) && |Trim(head, suf)| >= MinLemmaRunes
    && Restored(Trim(head, suf)).Some? && "N" + Restored(Trim(head, suf)).value in seen
  }

  /** A noun key whose lemma is an inflected form of another noun entry. */
  predicate Inflected(seen: set<string>, key: string) {
    && key != "" && key[0] == 'N'
    && ((exists i :: 0 <= i < |PlainSuffixes| && PlainHit(seen, key[1..], PlainSuffixes[i]))
        || (exists i :: 0 <= i < |RestoreSuffixes| && RestoreHit(seen, key[1..], RestoreSuffixes[i])))
  }

  /** One key's check: the plain suffixes first, then the ones with consonant restoration. */
  method IsInflected(seen: set<string>, key: string) returns (b: bool)
    requires key != ""
    ensures b <==> Inflected(seen, key)
  {
    if key[0] != 'N' {
      return false;
    }
    var head := key[1..];
    b := HasPlainBase(seen, head);
    if !b {
      b := HasRestoredBase(seen, head);
    }
  }

  /** The loop over the plain suffixes: some suffix leaves a long enough stem that is a noun entry. */
  method HasPlainBase(seen: set<string>, head: string) returns (b: bool)
    ensures b <==> exists i :: 0 <= i < |PlainSuffixes| && PlainHit(seen, head, PlainSuffixes[i])
  {
    for i := 0 to |PlainSuffixes|
      invariant forall k :: 0 <= k < i ==> !PlainHit(seen, head, PlainSuffixes[k])
    {
      var suf := PlainSuffixes[i];
      if !HasSuffix(head, suf) {
        continue;
      }
      var stem := head[..|head| - |suf|];
      if |stem| < MinLemmaRunes {
        continue;
      }
      if "N" + stem in seen {
        return true;
      }
    }
    return false;
  }

  /** The loop over the suffixes that soften k and q: the restored stem is a noun entry. */
  method HasRestoredBase(seen: set<string>, head: string) returns (b: bool)
    ensures b <==> exists i :: 0 <= i < |RestoreSuffixes| && RestoreHit(seen, head, RestoreSuffixes[i])
  {
    for i := 0 to |RestoreSuffixes|
      invariant forall k :: 0 <= k < i ==> !RestoreHit(seen, head, RestoreSuffixes[k])
    {
      var suf := RestoreSuffixes[i];
      if !HasSuffix(head, suf) {
        continue;
      }
      var stem := head[..|head| - |suf|];
      if |stem| < MinLemmaRunes {
        continue;
      }
      var runes := stem;
      var last := runes[|runes| - 1];
      if last == 'y' {
        runes := runes[|runes| - 1 := 'k'];
      } else if last == 'ğ' {
        runes := runes[|runes| - 1 := 'q'];
      } else {
        continue;
      }
      assert runes == stem[..|stem| - 1] + [Restore(last).value];
      assert Restored(Trim(head, suf)) == Some(runes);
      if "N" + runes in seen {
        return true;
      }
    }
    return false;
  }

  /** The first loop of the filter: every inflected noun key, gathered for deletion. */
  method CollectInflected(seen: set<string>) returns (toDelete: set<string>)
    requires "" !in seen
    ensures toDelete == set k | k in seen && Inflected(seen, k)
  {
    toDelete := {};
    var rest := seen;
    while rest != {}
      invariant rest <= seen
      invariant toDelete == set k | k in seen - rest && Inflected(seen, k)
      decreases |rest|
    {
      var key :| key in rest;
      var b := IsInflected(seen, key);
      if b {
        toDelete := toDelete + {key};
      }
      rest := rest - {key};
    }
  }

  /**
   * filterInflected: every key is checked against the original set, the
   * inflected ones are collected, then deleted; the result is the keys
   * that are not inflected nouns.
   */
  method FilterInflected(seen: set<string>) returns (kept: set<string>)
    requires "" !in seen
    ensures kept == set k | k in seen && !Inflected(seen, k)
  {
    var toDelete := CollectInflected(seen);
    kept := seen;
    var del := toDelete;
    while del != {}
      invariant del <= toDelete
      invariant kept == seen - (toDelete - del)
      decreases |del|
    {
      var key :| key in del;
      kept := kept - {key};
      del := del - {key};
    }
  }

  /** No suffix of either list is empty, so trimming one always shortens the lemma. */
  lemma SuffixesNonEmpty()
    ensures forall i :: 0 <= i < |PlainSuffixes| ==> PlainSuffixes[i] != ""
    ensures forall i :: 0 <= i < |RestoreSuffixes| ==> RestoreSuffixes[i] != ""
  {
  }

  /** Only noun entries are dropped, and each dropped one has its base noun in the set. */
  lemma DroppedHaveBase(seen: set<string>, key: string)
    requires key in seen && Inflected(seen, key)
    ensures key[0] == 'N'
    ensures exists stem :: MinLemmaRunes <= |stem| < |key| - 1 && "N" + stem in seen
  {
    SuffixesNonEmpty();
    var head := key[1..];
    if i :| 0 <= i < |PlainSuffixes| && PlainHit(seen, head, PlainSuffixes[i]) {
      PlainBase(seen, head, PlainSuffixes[i]);
    } else {
      var i :| 0 <= i < |RestoreSuffixes| && RestoreHit(seen, head, RestoreSuffixes[i]);
      RestoreBase(seen, head, RestoreSuffixes[i]);
    }
  }

  lemma PlainBase(seen: set<string>, head: string, suf: string)
    requires suf != "" && PlainHit(seen, head, suf)
    ensures exists stem :: MinLemmaRunes <= |stem| < |head| && "N" + stem in seen
  {
    var stem := Trim(head, suf);
    assert MinLemmaRunes <= |stem| < |head| && "N" + stem in seen;
  }

  lemma RestoreBase(seen: set<string>, head: string, suf: string)
    requires suf != "" && RestoreHit(seen, head, suf)
    ensures exists stem :: MinLemmaRunes <= |stem| < |head| && "N" + stem in seen
  {
    var stem := Restored(Trim(head, suf)).value;
    assert MinLemmaRunes <= |stem| < |head| && "N" + stem in seen;
  }

  // ---------------------------------------------------------------------
  // Output order
  // ---------------------------------------------------------------------

  /** A key's lemma: everything after the category byte. */
  function LemmaOf(key: string): string { if key == [] then [] else key[1..] }

  /** A key's category, -1 for the empty key. */
  function CategoryOf(key: string): int { if key == [] then -1 else key[0] as int }

  /** The output order: by lemma, ties broken by the category byte. */
  predicate KeyLess(a: string, b: string) {
    StrOrder.Less(LemmaOf(a), LemmaOf(b)) || (LemmaOf(a) == LemmaOf(b) && CategoryOf(a) < CategoryOf(b))
  }

  lemma KeyLessPreorder()
    ensures Sorting.Preorder(KeyLess)
  {
    forall x: string, y: string | KeyLess(x, y) ensures !KeyLess(y, x) {
      if StrOrder.Less(LemmaOf(x), LemmaOf(y)) {
        StrOrder.Asymmetric(LemmaOf(x), LemmaOf(y));
      } else {
        StrOrder.Irreflexive(LemmaOf(x));
      }
    }
    forall x: string, y: string, z: string | !KeyLess(x, y) && !KeyLess(y, z)
      ensures !KeyLess(x, z)
    {
      var lx, ly, lz := LemmaOf(x), LemmaOf(y), LemmaOf(z);
      if lx != ly { StrOrder.Total(lx, ly); }
      if ly != lz { StrOrder.Total(ly, lz); }
      assert StrOrder.LessEq(ly, lx) && StrOrder.LessEq(lz, ly);
      StrOrder.LessEqTransitive(lz, ly, lx);
      if lz == lx {
        StrOrder.Irreflexive(lx);
      } else {
        StrOrder.Asymmetric(lz, lx);
      }
    }
  }

  /** Distinct keys are always ordered one way or the other, so the sorted output is unique. */
  lemma KeyLessTotal(a: string, b: string)
    requires a != "" && b != "" && a != b
    ensures KeyLess(a, b) || KeyLess(b, a)
  {
    if LemmaOf(a) == LemmaOf(b) {
      assert a == [a[0]] + LemmaOf(a) && b == [b[0]] + LemmaOf(b);
    } else {
      StrOrder.Total(LemmaOf(a), LemmaOf(b));
    }
  }

  /** The keys, in map-iteration order and then sorted by lemma and category. */
  method SortedKeys(seen: set<string>) returns (lines: seq<string>)
    ensures forall k :: k in lines <==> k in seen
    ensures |lines| == |seen|
    ensures Sorting.SortedBy(lines, KeyLess)
  {
    var ks: seq<string> := [];
    var rest := seen;
    while rest != {}
      invariant rest <= seen
      invariant forall k :: k in seen <==> k in rest || k in ks
      invariant forall k :: k in ks ==> k !in rest
      invariant |ks| + |rest| == |seen|
      decreases |rest|
    {
      var key :| key in rest;
      ks := ks + [key];
      rest := rest - {key};
    }
    var a := new string[|ks|](i requires 0 <= i < |ks| => ks[i]);
    assert a[..] == ks;
    KeyLessPreorder();
    Sorting.SortBy(a, KeyLess);
    lines := a[..];
    forall k ensures k in lines <==> k in ks {
      Sorting.PermMember(lines, ks, k);
    }
  }

  /**
   * The generator: the keys of the lines, without the inflected nouns,
   * sorted by lemma and then category.
   */
  method Generate(entries: seq<Option<KaikkiEntry>>) returns (lines: seq<string>)
    ensures forall k :: k in lines <==> k in KeysOf(entries) && !Inflected(KeysOf(entries), k)
    ensures Sorting.SortedBy(lines, KeyLess)
  {
    var seen := CollectKeys(entries);
    assert "" !in seen;
    var kept := FilterInflected(seen);
    lines := SortedKeys(kept);
  }
}
