/**
 * The embedded stem dictionary of the morphological analyser: one entry per
 * line, a part-of-speech byte followed by the lemma, sorted by lemma; and the
 * binary-search lookups over it.
 */
module MorphDict {
  import Unicode
  import opened StrOrder

  /** The shortest line that holds an entry: a POS byte and one lemma byte. */
  const MinLineLen: nat := 2

  /** The POS value returned for a stem that is not in the dictionary. */
  const NoPOS: char := '\0'

  /** The parsed dictionary: lemmas and the parallel POS tags. */
  datatype Dict = Dict(lemmas: seq<string>, pos: seq<char>)

  /** The lines that hold an entry, in order. */
  function Kept(lines: seq<string>): (kept: seq<string>)
    ensures forall k :: 0 <= k < |kept| ==> Unicode.ByteLen(kept[k]) >= MinLineLen
    ensures |kept| <= |lines|
  {
    if lines == [] then []
    else
      var prev := Kept(lines[..|lines| - 1]);
      var line := lines[|lines| - 1];
      if Unicode.ByteLen(line) < MinLineLen then prev else prev + [line]
  }

  /** Every line of at least two bytes is kept. */
  lemma {:induction false} KeptLong(lines: seq<string>)
    ensures forall k :: 0 <= k < |lines| && Unicode.ByteLen(lines[k]) >= MinLineLen ==> lines[k] in Kept(lines)
  {
    if lines != [] {
      var n := |lines| - 1;
      var init := lines[..n];
      KeptLong(init);
      var prev := Kept(init);
      assert Kept(lines) == prev || Kept(lines) == prev + [lines[n]];
      forall k | 0 <= k < |lines| && Unicode.ByteLen(lines[k]) >= MinLineLen
        ensures lines[k] in Kept(lines)
      {
        if k < n {
          assert lines[k] == init[k];
          assert lines[k] in prev;
        }
      }
    }
  }

  /** Nothing but lines of the input is kept. */
  lemma {:induction false} KeptFromLines(lines: seq<string>)
    ensures forall x :: x in Kept(lines) ==> x in lines
  {
    if lines != [] {
      var n := |lines| - 1;
      var init := lines[..n];
      KeptFromLines(init);
      assert forall x :: x in init ==> x in lines;
    }
  }

  /** An empty line keeps nothing, and a non-ASCII rune alone is two bytes and is kept. */
  lemma ShortLines()
    ensures Kept(["", "a", "Nev"]) == ["Nev"]
    ensures Kept(["ə"]) == ["ə"]
  {
    assert Kept(["", "a"]) == [] by {
      assert ["", "a"][..1] == [""];
      assert Kept([""]) == [] by { assert [""][..0] == []; }
    }
    assert ["", "a", "Nev"][..2] == ["", "a"];
    assert ["ə"][..0] == [];
  }

  /**
   * init in dict.go: splits the raw text at newlines and, for every line of at
   * least two bytes, records its first rune as the POS and the rest as the lemma.
   */
  method Parse(raw: string) returns (d: Dict)
    ensures var kept := Kept(Unicode.Split(raw, '\n'));
      |d.lemmas| == |kept| && |d.pos| == |kept|
      && forall i :: 0 <= i < |kept| ==> kept[i] == [d.pos[i]] + d.lemmas[i]
  {
    var lines := Unicode.Split(raw, '\n');
    var lemmas: seq<string> := [];
    var pos: seq<char> := [];
    var k := 0;
    while k < |lines|
      invariant 0 <= k <= |lines|
      invariant |lemmas| == |Kept(lines[..k])| && |pos| == |lemmas|
      invariant forall i :: 0 <= i < |lemmas| ==> Kept(lines[..k])[i] == [pos[i]] + lemmas[i]
    {
      var line := lines[k];
      assert lines[..k + 1][..k] == lines[..k];
      if Unicode.ByteLen(line) >= MinLineLen {
        Unicode.ByteLenBounds(line);
        assert line == [line[0]] + line[1..];
        pos := pos + [line[0]];
        lemmas := lemmas + [line[1..]];
      }
      k := k + 1;
    }
    assert lines[..k] == lines;
    d := Dict(lemmas, pos);
  }

  /**
   * sort.SearchStrings: Go's binary search for the first index in [i, j) whose
   * lemma is not below s, halving with h = (i + j) / 2.
   */
  function SearchRange(a: seq<string>, s: string, i: nat, j: nat): (r: nat)
    requires i <= j <= |a|
    ensures i <= r <= j
    decreases j - i
  {
    if i >= j then i
    else
      var h := (i + j) / 2;
      if Less(a[h], s) then SearchRange(a, s, h + 1, j) else SearchRange(a, s, i, h)
  }

  function SearchStrings(a: seq<string>, s: string): (r: nat)
    ensures r <= |a|
  {
    SearchRange(a, s, 0, |a|)
  }

  lemma LessEqLess(a: string, b: string, c: string)
    requires LessEq(a, b) && Less(b, c)
    ensures Less(a, c)
  {
    if a != b {
      Transitive(a, b, c);
    }
  }

  /** On a sorted list the binary search returns the lower bound of s. */
  lemma {:induction false} SearchRangeBound(a: seq<string>, s: string, i: nat, j: nat)
    requires Sorted(a) && i <= j <= |a|
    requires forall k :: 0 <= k < i ==> Less(a[k], s)
    requires forall k :: j <= k < |a| ==> !Less(a[k], s)
    ensures var r := SearchRange(a, s, i, j);
      (forall k :: 0 <= k < r ==> Less(a[k], s)) && (forall k :: r <= k < |a| ==> !Less(a[k], s))
    decreases j - i
  {
    if i < j {
      var h := (i + j) / 2;
      if Less(a[h], s) {
        forall k | 0 <= k < h + 1 ensures Less(a[k], s) {
          if k < h { LessEqLess(a[k], a[h], s); }
        }
        SearchRangeBound(a, s, h + 1, j);
      } else {
        forall k | h <= k < |a| ensures !Less(a[k], s) {
          if k > h && Less(a[k], s) { LessEqLess(a[h], a[k], s); }
        }
        SearchRangeBound(a, s, i, h);
      }
    }
  }

  lemma SearchStringsBound(a: seq<string>, s: string)
    requires Sorted(a)
    ensures var r := SearchStrings(a, s);
      (forall k :: 0 <= k < r ==> Less(a[k], s)) && (forall k :: r <= k < |a| ==> !Less(a[k], s))
  {
    SearchRangeBound(a, s, 0, |a|);
  }

  /** isKnownStem: the search lands on s itself; the empty string is never known. */
  function KnownStem(d: Dict, s: string): (b: bool)
    ensures s == "" ==> !b
    ensures b ==> s in d.lemmas
  {
    s != "" && var i := SearchStrings(d.lemmas, s); i < |d.lemmas| && d.lemmas[i] == s
  }

  /** stemPOS: the POS beside the lemma the search lands on, or NoPOS. */
  function StemPOS(d: Dict, s: string): (p: char)
    requires |d.pos| == |d.lemmas|
    ensures s == "" ==> p == NoPOS
  {
    if s == "" then NoPOS
    else
      var i := SearchStrings(d.lemmas, s);
      if i < |d.lemmas| && d.lemmas[i] == s then d.pos[i] else NoPOS
  }

  /** With the lemmas sorted, a stem is known exactly when it is a non-empty lemma. */
  lemma KnownStemSorted(d: Dict, s: string)
    requires Sorted(d.lemmas)
    ensures KnownStem(d, s) <==> s != "" && s in d.lemmas
  {
    if s != "" && s in d.lemmas {
      var k :| 0 <= k < |d.lemmas| && d.lemmas[k] == s;
      SearchStringsBound(d.lemmas, s);
      var i := SearchStrings(d.lemmas, s);
      Irreflexive(s);
      assert i <= k;
      assert !Less(d.lemmas[i], s);
      assert LessEq(d.lemmas[i], d.lemmas[k]);
    }
  }

  /**
   * With the lemmas sorted, stemPOS is the tag beside the first occurrence of
   * the stem, and NoPOS when the stem is empty or absent.
   */
  lemma StemPOSSorted(d: Dict, s: string)
    requires Sorted(d.lemmas) && |d.pos| == |d.lemmas|
    ensures s == "" || s !in d.lemmas ==> StemPOS(d, s) == NoPOS
    ensures s != "" && s in d.lemmas ==>
      exists i :: 0 <= i < |d.lemmas| && d.lemmas[i] == s && StemPOS(d, s) == d.pos[i]
        && forall k :: 0 <= k < i ==> d.lemmas[k] != s
  {
    KnownStemSorted(d, s);
    if s != "" && s in d.lemmas {
      SearchStringsBound(d.lemmas, s);
      var i := SearchStrings(d.lemmas, s);
      forall k | 0 <= k < i ensures d.lemmas[k] != s {
        Irreflexive(s);
      }
    }
  }
}
