/**
 * Vowel-drop restoration: a contracted stem (oğl-, burn-, ağz-) gets its
 * dropped vowel back by trying each vowel inside the last consonant cluster
 * and keeping the candidate the dictionary knows.
 */
module MorphVowelDrop {
  import AzCase
  import P = MorphPhonology
  import opened MorphDict

  /** The fewest runes a contracted stem can have: a vowel and a two-consonant cluster. */
  const MinRestoreLen: nat := 3

  /** The nine vowels tried at the insertion point, in the order they are tried. */
  const AzVowels: string := "aeəiıoöuü"

  /** Runes i-1 and i are both non-vowels. */
  predicate ConsonantPair(s: string, i: nat)
    requires 1 <= i < |s|
  {
    !P.IsVowel(s[i]) && !P.IsVowel(s[i - 1])
  }

  /** The largest i in [1, from] starting a consonant pair, or -1. */
  function RightmostPair(s: string, from: int): (p: int)
    requires from < |s|
    ensures p == -1 || (1 <= p <= from && ConsonantPair(s, p))
    ensures forall i :: 1 <= i <= from && p < i ==> !ConsonantPair(s, i)
    decreases from
  {
    if from < 1 then -1
    else if ConsonantPair(s, from) then from
    else RightmostPair(s, from - 1)
  }

  /** The stem with v inserted before position p. */
  function Candidate(s: string, p: nat, v: char): (c: string)
    requires p <= |s|
    ensures |c| == |s| + 1 && c[p] == v
  {
    s[..p] + [v] + s[p..]
  }

  /** The candidates, one per vowel of vs in order, that the dictionary knows. */
  function Matches(d: Dict, s: string, p: nat, vs: string): (ms: seq<string>)
    requires p <= |s|
    ensures forall k :: 0 <= k < |ms| ==> KnownStem(d, ms[k]) && |ms[k]| == |s| + 1
    ensures forall k :: 0 <= k < |ms| ==> exists j :: 0 <= j < |vs| && ms[k] == Candidate(s, p, vs[j])
    decreases |vs|
  {
    if vs == [] then []
    else
      var prev := Matches(d, s, p, vs[..|vs| - 1]);
      var c := Candidate(s, p, vs[|vs| - 1]);
      assert forall k :: 0 <= k < |prev| ==> exists j :: 0 <= j < |vs| && prev[k] == Candidate(s, p, vs[j]) by {
        forall k | 0 <= k < |prev| ensures exists j :: 0 <= j < |vs| && prev[k] == Candidate(s, p, vs[j]) {
          var j :| 0 <= j < |vs| - 1 && prev[k] == Candidate(s, p, vs[..|vs| - 1][j]);
          assert vs[..|vs| - 1][j] == vs[j];
        }
      }
      if KnownStem(d, c) then prev + [c] else prev
  }

  /** The first match whose rune at p is the harmony target, or "". */
  function PickMatch(ms: seq<string>, p: nat, target: char): (r: string)
    requires forall k :: 0 <= k < |ms| ==> p < |ms[k]|
    ensures r == "" || (r in ms && r[p] == target)
    ensures r == "" <==> forall k :: 0 <= k < |ms| ==> ms[k][p] != target
  {
    if ms == [] then ""
    else if ms[0][p] == target then ms[0]
    else PickMatch(ms[1..], p, target)
  }

  /** tryRestoreVowelDrop as a function of the dictionary and the stem. */
  function RestoreVowelDrop(d: Dict, s: string): (r: string)
    ensures |s| < MinRestoreLen ==> r == ""
  {
    if |s| < MinRestoreLen then ""
    else
      var p := RightmostPair(s, |s| - 1);
      if p < 1 then ""
      else
        var sv := P.LastVowel(s[..p]);
        if sv == P.NoVowel then ""
        else
          var ms := Matches(d, s, p, AzVowels);
          if |ms| == 0 then ""
          else if |ms| == 1 then ms[0]
          else PickMatch(ms, p, P.FourWayTarget(AzCase.Lower(sv)))
  }

  /**
   * A restored stem is a dictionary stem, one rune longer, made by inserting
   * one of the nine vowels at the rightmost consonant pair, whose prefix has a vowel.
   */
  lemma RestoreShape(d: Dict, s: string)
    ensures var r := RestoreVowelDrop(d, s);
      r != "" ==>
        |s| >= MinRestoreLen && KnownStem(d, r) && |r| == |s| + 1
        && (exists p, j :: 1 <= p < |s| && p == RightmostPair(s, |s| - 1) && 0 <= j < |AzVowels|
              && r == Candidate(s, p, AzVowels[j]) && P.LastVowel(s[..p]) != P.NoVowel)
  {
    var r := RestoreVowelDrop(d, s);
    if r != "" {
      var p := RightmostPair(s, |s| - 1);
      var ms := Matches(d, s, p, AzVowels);
      assert r in ms;
      var k :| 0 <= k < |ms| && ms[k] == r;
      var j :| 0 <= j < |AzVowels| && ms[k] == Candidate(s, p, AzVowels[j]);
    }
  }

  /** Without a consonant pair, or with a vowel-less prefix, nothing is restored. */
  lemma RestoreNeedsCluster(d: Dict, s: string)
    requires forall i :: 1 <= i < |s| ==> !ConsonantPair(s, i)
    ensures RestoreVowelDrop(d, s) == ""
  {
  }

  /**
   * With several dictionary hits the restored vowel is the four-way target of
   * the prefix's last vowel; when no hit carries it, nothing is restored.
   */
  lemma RestoreHarmony(d: Dict, s: string)
    requires |s| >= MinRestoreLen
    requires var p := RightmostPair(s, |s| - 1); p >= 1 && |Matches(d, s, p, AzVowels)| >= 2
    ensures var p := RightmostPair(s, |s| - 1);
      var r := RestoreVowelDrop(d, s);
      (r != "" ==> r[p] == P.FourWayTarget(AzCase.Lower(P.LastVowel(s[..p]))))
      && (r == "" <==> (P.LastVowel(s[..p]) == P.NoVowel
        || forall k :: 0 <= k < |Matches(d, s, p, AzVowels)| ==>
             Matches(d, s, p, AzVowels)[k][p] != P.FourWayTarget(AzCase.Lower(P.LastVowel(s[..p])))))
  {
  }

  /** The backward scan for the rightmost consonant pair; -1 when there is none. */
  method FindInsertPos(runes: string) returns (insertPos: int)
    requires |runes| >= 1
    ensures insertPos == RightmostPair(runes, |runes| - 1)
  {
    var n := |runes| - 1;
    insertPos := -1;
    var i := n;
    while i > 0
      invariant 0 <= i <= n
      invariant insertPos == -1 ==> RightmostPair(runes, n) == RightmostPair(runes, i)
      invariant insertPos != -1 ==> RightmostPair(runes, n) == insertPos
      decreases i, insertPos + 1
    {
      if !P.IsVowel(runes[i]) && !P.IsVowel(runes[i - 1]) {
        insertPos := i;
        break;
      }
      i := i - 1;
    }
  }

  /** Tries the nine vowels at the insertion point and collects the known candidates. */
  method CollectMatches(d: Dict, runes: string, insertPos: nat) returns (matches: seq<string>)
    requires insertPos <= |runes|
    ensures matches == Matches(d, runes, insertPos, AzVowels)
  {
    var prefix := runes[..insertPos];
    matches := [];
    for j := 0 to |AzVowels|
      invariant matches == Matches(d, runes, insertPos, AzVowels[..j])
    {
      assert AzVowels[..j + 1][..j] == AzVowels[..j];
      var candidate := prefix + [AzVowels[j]] + runes[insertPos..];
      if KnownStem(d, candidate) {
        matches := matches + [candidate];
      }
    }
    assert AzVowels[..|AzVowels|] == AzVowels;
  }

  /** The harmony tie-break over several hits. */
  method FirstWithTarget(matches: seq<string>, insertPos: nat, target: char) returns (r: string)
    requires forall k :: 0 <= k < |matches| ==> insertPos < |matches[k]|
    ensures r == PickMatch(matches, insertPos, target)
  {
    for k := 0 to |matches|
      invariant PickMatch(matches, insertPos, target) == PickMatch(matches[k..], insertPos, target)
    {
      assert matches[k..][1..] == matches[k + 1..];
      if matches[k][insertPos] == target {
        return matches[k];
      }
    }
    return "";
  }

  /** tryRestoreVowelDrop: scans for the cluster, tries each vowel, then resolves the hits. */
  method TryRestoreVowelDrop(d: Dict, stem: string) returns (r: string)
    ensures r == RestoreVowelDrop(d, stem)
  {
    var runes := stem;
    if |runes| < MinRestoreLen {
      return "";
    }
    var insertPos := FindInsertPos(runes);
    if insertPos < 1 {
      return "";
    }
    var prefix := runes[..insertPos];
    var stemVowel := P.LastVowel(prefix);
    if stemVowel == P.NoVowel {
      return "";
    }
    var matches := CollectMatches(d, runes, insertPos);
    if |matches| == 0 {
      return "";
    } else if |matches| == 1 {
      return matches[0];
    }
    var target := P.FourWayTarget(AzCase.Lower(stemVowel));
    r := FirstWithTarget(matches, insertPos, target);
  }
}
