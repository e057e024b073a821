/**
 * The review-cleaning pass of the dataset extraction script: drop rows without
 * content, keep the first row per content, drop short content, drop content
 * seen with more than one score; and the TSV sanitisation of the written rows.
 */
module ExtractReviews {
  import opened Wrappers
  import Unicode
  import Seqs

  const MinContentLen: nat := 10

  /** One dataset row; a missing content is None. */
  datatype Record = Record(content: Option<string>, score: int)

  /** Python's str.isspace: Go's white space plus the four separators U+001C..U+001F. */
  predicate PyIsSpace(c: char) { Unicode.IsSpace(c) || ('\U{001C}' <= c <= '\U{001F}') }

  /** Python's str.strip() with no argument. */
  function Strip(s: string): (r: string)
    ensures |r| <= |s|
    ensures r != [] ==> !PyIsSpace(r[0]) && !PyIsSpace(r[|r| - 1])
    ensures forall i :: 0 <= i < |s| && !PyIsSpace(s[i]) ==> r != []
    decreases |s|
  {
    if s == [] then []
    else if PyIsSpace(s[0]) then Strip(s[1..])
    else if PyIsSpace(s[|s| - 1]) then Strip(s[..|s| - 1])
    else s
  }

  /** The set of contents occurring in rows. */
  function Contents(rs: seq<Record>): set<string> {
    set r | r in rs && r.content.Some? :: r.content.value
  }

  /** The scores seen with content c. */
  function ScoresOf(c: string, rs: seq<Record>): set<int> {
    set r | r in rs && r.content == Some(c) :: r.score
  }

  /** First pass: rows with content, first occurrence of each content, in order. */
  function Dedup(rs: seq<Record>): seq<Record>
    decreases |rs|
  {
    if rs == [] then []
    else
      var d := Dedup(rs[..|rs| - 1]);
      var r := rs[|rs| - 1];
      if r.content.None? || r.content.value in Contents(d) then d else d + [r]
  }

  predicate LongEnough(r: Record) {
    r.content.Some? && |Strip(r.content.value)| >= MinContentLen
  }

  /** Second pass: rows whose stripped content has at least MinContentLen runes. */
  function LengthFilter(rs: seq<Record>): seq<Record>
    decreases |rs|
  {
    if rs == [] then []
    else LengthFilter(rs[..|rs| - 1]) + (if LongEnough(rs[|rs| - 1]) then [rs[|rs| - 1]] else [])
  }

  /** The contents that occur with more than one score. */
  function Ambiguous(rs: seq<Record>): set<string> {
    set c | c in Contents(rs) && |ScoresOf(c, rs)| > 1
  }

  /** Third pass: rows whose content is not in the excluded set. */
  function DropContents(rs: seq<Record>, excluded: set<string>): seq<Record>
    decreases |rs|
  {
    if rs == [] then []
    else
      var r := rs[|rs| - 1];
      DropContents(rs[..|rs| - 1], excluded)
        + (if r.content.Some? && r.content.value in excluded then [] else [r])
  }

  /** The passes as the script chains them: ambiguity is measured on the deduplicated rows. */
  function CleanAsWritten(rs: seq<Record>): seq<Record> {
    var lf := LengthFilter(Dedup(rs));
    DropContents(lf, Ambiguous(lf))
  }

  /** The three passes as the script's docstring describes them: ambiguity measured on every row. */
  function CleanIntended(rs: seq<Record>): seq<Record> {
    DropContents(LengthFilter(Dedup(rs)), Ambiguous(rs))
  }

  lemma ContentsSnoc(rs: seq<Record>, r: Record)
    ensures Contents(rs + [r]) == Contents(rs) + (if r.content.Some? then {r.content.value} else {})
  {
    assert forall q :: q in rs + [r] <==> q in rs || q == r;
  }

  lemma ScoresSnoc(c: string, rs: seq<Record>, r: Record)
    ensures ScoresOf(c, rs + [r]) == ScoresOf(c, rs) + (if r.content == Some(c) then {r.score} else {})
  {
    assert forall q :: q in rs + [r] <==> q in rs || q == r;
  }

  /** The cleaning pass: the script's three passes in order. */
  method Clean(records: seq<Record>) returns (cleaned: seq<Record>)
    ensures cleaned == CleanAsWritten(records)
  {
    var deduped := DedupRows(records);
    var lengthFiltered := KeepLong(deduped);
    var contentScores := CollectScores(lengthFiltered);
    var ambiguous := set c | c in contentScores && |contentScores[c]| > 1;
    assert ambiguous == Ambiguous(lengthFiltered);
    cleaned := DropRows(lengthFiltered, ambiguous);
  }

  /** The first loop: a seen set of contents, appending each row with unseen content. */
  method DedupRows(records: seq<Record>) returns (deduped: seq<Record>)
    ensures deduped == Dedup(records)
  {
    var seen: set<string> := {};
    deduped := [];
    var i := 0;
    while i < |records|
      invariant 0 <= i <= |records|
      invariant deduped == Dedup(records[..i])
      invariant seen == Contents(deduped)
    {
      var row := records[i];
      assert records[..i + 1][..i] == records[..i];
      if row.content.Some? && row.content.value !in seen {
        ContentsSnoc(deduped, row);
        seen := seen + {row.content.value};
        deduped := deduped + [row];
      }
      i := i + 1;
    }
    assert records[..i] == records;
  }

  /** The length-filter comprehension. */
  method KeepLong(deduped: seq<Record>) returns (lengthFiltered: seq<Record>)
    ensures lengthFiltered == LengthFilter(deduped)
  {
    lengthFiltered := [];
    var i := 0;
    while i < |deduped|
      invariant 0 <= i <= |deduped|
      invariant lengthFiltered == LengthFilter(deduped[..i])
    {
      assert deduped[..i + 1][..i] == deduped[..i];
      if LongEnough(deduped[i]) {
        lengthFiltered := lengthFiltered + [deduped[i]];
      }
      i := i + 1;
    }
    assert deduped[..i] == deduped;
  }

  /** The content-to-scores dictionary. */
  method CollectScores(rows: seq<Record>) returns (contentScores: map<string, set<int>>)
    ensures contentScores.Keys == Contents(rows)
    ensures forall c :: c in contentScores ==> contentScores[c] == ScoresOf(c, rows)
  {
    contentScores := map[];
    var i := 0;
    while i < |rows|
      invariant 0 <= i <= |rows|
      invariant contentScores.Keys == Contents(rows[..i])
      invariant forall c :: c in contentScores ==> contentScores[c] == ScoresOf(c, rows[..i])
    {
      var row := rows[i];
      var pre := rows[..i];
      assert rows[..i + 1] == pre + [row];
      ContentsSnoc(pre, row);
      forall c ensures ScoresOf(c, pre + [row]) == ScoresOf(c, pre) + (if row.content == Some(c) then {row.score} else {}) {
        ScoresSnoc(c, pre, row);
      }
      if row.content.Some? {
        var c := row.content.value;
        var known := if c in contentScores then contentScores[c] else {};
        assert c !in contentScores ==> ScoresOf(c, pre) == {};
        contentScores := contentScores[c := known + {row.score}];
      }
      i := i + 1;
    }
    assert rows[..i] == rows;
  }

  /** The final comprehension dropping ambiguous content. */
  method DropRows(rows: seq<Record>, ambiguous: set<string>) returns (cleaned: seq<Record>)
    ensures cleaned == DropContents(rows, ambiguous)
  {
    cleaned := [];
    var i := 0;
    while i < |rows|
      invariant 0 <= i <= |rows|
      invariant cleaned == DropContents(rows[..i], ambiguous)
    {
      var row := rows[i];
      assert rows[..i + 1][..i] == rows[..i];
      if !(row.content.Some? && row.content.value in ambiguous) {
        cleaned := cleaned + [row];
      }
      i := i + 1;
    }
    assert rows[..i] == rows;
  }

  /** No two rows share a content. */
  predicate UniqueContents(rs: seq<Record>) {
    forall i, j :: 0 <= i < j < |rs| ==> rs[i].content != rs[j].content
  }

  lemma DedupProps(rs: seq<Record>)
    ensures UniqueContents(Dedup(rs))
    ensures forall r :: r in Dedup(rs) ==> r.content.Some?
    ensures Seqs.SubseqOf(Dedup(rs), rs)
    ensures Contents(Dedup(rs)) == Contents(rs)
  {
    DedupUnique(rs);
    DedupSubseq(rs);
    DedupContents(rs);
  }

  /** Dedup keeps only rows with content, and no content twice. */
  lemma {:induction false} DedupUnique(rs: seq<Record>)
    ensures UniqueContents(Dedup(rs))
    ensures forall r :: r in Dedup(rs) ==> r.content.Some?
    decreases |rs|
  {
    if rs != [] {
      var pre := rs[..|rs| - 1];
      var r := rs[|rs| - 1];
      var d := Dedup(pre);
      DedupUnique(pre);
      if !(r.content.None? || r.content.value in Contents(d)) {
        UniqueSnoc(d, r);
      }
    }
  }

  /** Dedup keeps rows in their input order. */
  lemma {:induction false} DedupSubseq(rs: seq<Record>)
    ensures Seqs.SubseqOf(Dedup(rs), rs)
    decreases |rs|
  {
    if rs != [] {
      var pre := rs[..|rs| - 1];
      var r := rs[|rs| - 1];
      DedupSubseq(pre);
      assert rs == pre + [r];
      Seqs.SubseqSnoc(Dedup(pre), pre, r);
    }
  }

  /** Dedup loses no content. */
  lemma {:induction false} DedupContents(rs: seq<Record>)
    ensures Contents(Dedup(rs)) == Contents(rs)
    decreases |rs|
  {
    if rs != [] {
      var pre := rs[..|rs| - 1];
      var r := rs[|rs| - 1];
      var d := Dedup(pre);
      DedupContents(pre);
      assert rs == pre + [r];
      ContentsSnoc(pre, r);
      ContentsSnoc(d, r);
    }
  }

  /** A row whose content is new keeps the contents unique when appended. */
  lemma UniqueSnoc(d: seq<Record>, r: Record)
    requires UniqueContents(d) && r.content.Some? && r.content.value !in Contents(d)
    ensures UniqueContents(d + [r])
  {
    forall i | 0 <= i < |d| ensures d[i].content != r.content {
      assert d[i] in d;
    }
  }

  lemma LengthFilterSnoc(pre: seq<Record>, r: Record)
    ensures LengthFilter(pre + [r]) == LengthFilter(pre) + (if LongEnough(r) then [r] else [])
  {
    assert (pre + [r])[..|pre|] == pre;
  }

  lemma {:induction false} LengthFilterProps(rs: seq<Record>)
    ensures Seqs.SubseqOf(LengthFilter(rs), rs)
    ensures forall r :: r in LengthFilter(rs) ==> LongEnough(r)
    decreases |rs|
  {
    if rs != [] {
      var pre := rs[..|rs| - 1];
      var r := rs[|rs| - 1];
      LengthFilterProps(pre);
      assert rs == pre + [r];
      LengthFilterSnoc(pre, r);
      Seqs.SubseqSnoc(LengthFilter(pre), pre, r);
      if LongEnough(r) {
        assert LengthFilter(rs) == LengthFilter(pre) + [r];
        assert Seqs.SubseqOf(LengthFilter(pre) + [r], rs);
      } else {
        assert LengthFilter(rs) == LengthFilter(pre);
        assert Seqs.SubseqOf(LengthFilter(pre), rs);
      }
      forall x | x in LengthFilter(rs) ensures LongEnough(x) {
        assert x in LengthFilter(pre) || x == r;
      }
    }
  }

  lemma {:induction false} LengthFilterUnique(rs: seq<Record>)
    requires UniqueContents(rs)
    ensures UniqueContents(LengthFilter(rs))
  {
    LengthFilterProps(rs);
    UniqueSubseq(LengthFilter(rs), rs);
  }

  lemma DropContentsSnoc(pre: seq<Record>, r: Record, excluded: set<string>)
    ensures DropContents(pre + [r], excluded)
            == DropContents(pre, excluded) + (if r.content.Some? && r.content.value in excluded then [] else [r])
  {
    assert (pre + [r])[..|pre|] == pre;
  }

  lemma {:induction false} DropContentsProps(rs: seq<Record>, excluded: set<string>)
    ensures Seqs.SubseqOf(DropContents(rs, excluded), rs)
    ensures forall r :: r in DropContents(rs, excluded) ==> !(r.content.Some? && r.content.value in excluded)
    decreases |rs|
  {
    if rs != [] {
      var pre := rs[..|rs| - 1];
      var r := rs[|rs| - 1];
      DropContentsProps(pre, excluded);
      assert rs == pre + [r];
      DropContentsSnoc(pre, r, excluded);
      Seqs.SubseqSnoc(DropContents(pre, excluded), pre, r);
      if r.content.Some? && r.content.value in excluded {
        assert DropContents(rs, excluded) == DropContents(pre, excluded);
        assert Seqs.SubseqOf(DropContents(pre, excluded), rs);
      } else {
        assert DropContents(rs, excluded) == DropContents(pre, excluded) + [r];
        assert Seqs.SubseqOf(DropContents(pre, excluded) + [r], rs);
      }
      forall x | x in DropContents(rs, excluded) ensures !(x.content.Some? && x.content.value in excluded) {
        assert x in DropContents(pre, excluded) || x == r;
      }
    }
  }

  lemma UniqueScores(c: string, rs: seq<Record>)
    requires UniqueContents(rs)
    ensures |ScoresOf(c, rs)| <= 1
  {
    var s := ScoresOf(c, rs);
    forall x, y | x in s && y in s ensures x == y {
      var i :| 0 <= i < |rs| && rs[i].content == Some(c) && rs[i].score == x;
      var j :| 0 <= j < |rs| && rs[j].content == Some(c) && rs[j].score == y;
      assert i == j;
    }
    if s != {} {
      var x :| x in s;
      assert s == {x};
    }
  }

  /**
   * Every kept row has content of at least MinContentLen stripped runes, no two
   * kept rows share content, and the rows keep their input order.
   */
  lemma CleanProps(rs: seq<Record>)
    ensures forall r :: r in CleanAsWritten(rs) ==> r.content.Some? && |Strip(r.content.value)| >= MinContentLen
    ensures UniqueContents(CleanAsWritten(rs))
    ensures Seqs.SubseqOf(CleanAsWritten(rs), rs)
  {
    var d := Dedup(rs);
    var lf := LengthFilter(d);
    var out := DropContents(lf, Ambiguous(lf));
    DedupProps(rs);
    LengthFilterProps(d);
    LengthFilterUnique(d);
    DropContentsProps(lf, Ambiguous(lf));
    Seqs.SubseqTrans(lf, d, rs);
    Seqs.SubseqTrans(out, lf, rs);
    UniqueSubseq(out, lf);
    forall r | r in out ensures r.content.Some? && |Strip(r.content.value)| >= MinContentLen {
      Seqs.SubseqMember(out, lf, r);
    }
  }

  lemma {:induction false} UniqueSubseq(xs: seq<Record>, ys: seq<Record>)
    requires Seqs.SubseqOf(xs, ys) && UniqueContents(ys)
    ensures UniqueContents(xs)
    decreases |ys|
  {
    if xs != [] {
      var yi := ys[..|ys| - 1];
      assert UniqueContents(yi);
      if xs[|xs| - 1] == ys[|ys| - 1] && Seqs.SubseqOf(xs[..|xs| - 1], yi) {
        var xi := xs[..|xs| - 1];
        UniqueSubseq(xi, yi);
        forall i | 0 <= i < |xi| ensures xi[i].content != xs[|xs| - 1].content {
          Seqs.SubseqMember(xi, yi, xi[i]);
          var k :| 0 <= k < |yi| && yi[k] == xi[i];
          assert ys[k] == yi[k];
        }
      } else {
        UniqueSubseq(xs, yi);
      }
    }
  }

  /** Finding: the ambiguity pass runs on deduplicated rows, where no content has two scores. */
  lemma AmbiguityFilterIsNoOp(rs: seq<Record>)
    ensures Ambiguous(LengthFilter(Dedup(rs))) == {}
    ensures CleanAsWritten(rs) == LengthFilter(Dedup(rs))
  {
    var lf := LengthFilter(Dedup(rs));
    DedupProps(rs);
    LengthFilterUnique(Dedup(rs));
    forall c | c in Contents(lf) ensures |ScoresOf(c, lf)| <= 1 { UniqueScores(c, lf); }
    DropNothing(lf);
  }

  lemma {:induction false} DropNothing(rs: seq<Record>)
    ensures DropContents(rs, {}) == rs
    decreases |rs|
  {
    if rs != [] {
      DropNothing(rs[..|rs| - 1]);
    }
  }

  /** A review posted twice with two different scores survives the script, with its first score. */
  lemma AmbiguousReviewKept(c: string, s1: int, s2: int)
    requires |Strip(c)| >= MinContentLen && s1 != s2
    ensures var rs := [Record(Some(c), s1), Record(Some(c), s2)];
            CleanAsWritten(rs) == [rs[0]] && CleanIntended(rs) == []
  {
    var r0, r1 := Record(Some(c), s1), Record(Some(c), s2);
    var rs := [r0, r1];
    TwinFirstPasses(r0, r1);
    AmbiguityFilterIsNoOp(rs);
    TwinAmbiguous(c, s1, s2);
    DropContentsSnoc([], r0, Ambiguous(rs));
  }

  /** Two rows with one content: deduplication keeps the first, and the length filter keeps it too. */
  lemma TwinFirstPasses(r0: Record, r1: Record)
    requires r0.content.Some? && r1.content == r0.content && LongEnough(r0)
    ensures LengthFilter(Dedup([r0, r1])) == [r0]
  {
    var rs := [r0, r1];
    assert rs[..1] == [r0] && [r0][..0] == [];
    assert Dedup([r0]) == [r0];
    ContentsSnoc([], r0);
    assert [] + [r0] == [r0];
    assert Dedup(rs) == [r0];
    LengthFilterSnoc([], r0);
  }

  /** Two rows with one content and two scores make that content ambiguous. */
  lemma TwinAmbiguous(c: string, s1: int, s2: int)
    requires s1 != s2
    ensures c in Ambiguous([Record(Some(c), s1), Record(Some(c), s2)])
  {
    var rs := [Record(Some(c), s1), Record(Some(c), s2)];
    assert rs[0] in rs && rs[1] in rs;
    assert s1 in ScoresOf(c, rs) && s2 in ScoresOf(c, rs);
    SubsetCard({s1, s2}, ScoresOf(c, rs));
    assert c in Contents(rs);
  }

  /** With ambiguity measured on every row, no kept row's content appears in the input with another score. */
  lemma CleanIntendedUnambiguous(rs: seq<Record>, r: Record, q: Record)
    requires r in CleanIntended(rs) && q in rs && q.content == r.content
    ensures q.score == r.score
  {
    KeptRow(rs, r);
    OneScore(rs, r.content.value, r, q);
  }

  /** A row the intended cleaning keeps comes from the input, has content, and that content is not ambiguous. */
  lemma KeptRow(rs: seq<Record>, r: Record)
    requires r in CleanIntended(rs)
    ensures r in rs && r.content.Some? && r.content.value !in Ambiguous(rs)
  {
    var d := Dedup(rs);
    var lf := LengthFilter(d);
    DedupSubseq(rs);
    LengthFilterProps(d);
    DropContentsProps(lf, Ambiguous(rs));
    Seqs.SubseqTrans(lf, d, rs);
    Seqs.SubseqMember(CleanIntended(rs), lf, r);
    Seqs.SubseqMember(lf, rs, r);
  }

  /** Two input rows with a content that is not ambiguous have the same score. */
  lemma OneScore(rs: seq<Record>, c: string, r: Record, q: Record)
    requires r in rs && q in rs && r.content == Some(c) && q.content == Some(c) && c !in Ambiguous(rs)
    ensures q.score == r.score
  {
    assert r.score in ScoresOf(c, rs) && q.score in ScoresOf(c, rs);
    assert c in Contents(rs);
    assert |ScoresOf(c, rs)| <= 1;
    if q.score != r.score {
      assert {q.score, r.score} <= ScoresOf(c, rs);
      assert |{q.score, r.score}| == 2;
      SubsetCard({q.score, r.score}, ScoresOf(c, rs));
    }
  }

  lemma SubsetCard(a: set<int>, b: set<int>)
    requires a <= b
    ensures |a| <= |b|
  {
    assert b == a + (b - a);
  }

  /** The TSV writer replaces tab, newline and carriage return in content with a space. */
  function Sanitize(content: string): (r: string)
    ensures |r| == |content|
    ensures forall i :: 0 <= i < |r| ==> r[i] != '\t' && r[i] != '\n' && r[i] != '\r'
    // The definition itself, rune by rune: the first two clauses are what it guarantees.
    ensures forall i :: 0 <= i < |r| ==> r[i] == (if content[i] in {'\t', '\n', '\r'} then ' ' else content[i])
  {
    seq(|content|, i requires 0 <= i < |content| => if content[i] in {'\t', '\n', '\r'} then ' ' else content[i])
  }

  /** Sanitising twice is sanitising once: a sanitised text has nothing left to replace. */
  lemma SanitizeIdempotent(content: string)
    ensures Sanitize(Sanitize(content)) == Sanitize(content)
  {
    var once := Sanitize(content);
    assert forall i :: 0 <= i < |once| ==> once[i] !in {'\t', '\n', '\r'};
  }

  // ---------------------------------------------------------------------
  // Which rows survive
  // ---------------------------------------------------------------------

  /** Row i has content and no earlier row has the same content. */
  predicate FirstOf(rs: seq<Record>, i: int)
    requires 0 <= i < |rs|
  {
    rs[i].content.Some? && forall j :: 0 <= j < i ==> rs[j].content != rs[i].content
  }

  /** A first occurrence in a prefix is a first occurrence in the whole. */
  lemma FirstOfPrefix(rs: seq<Record>, n: nat, i: nat)
    requires i < n <= |rs|
    ensures FirstOf(rs[..n], i) <==> FirstOf(rs, i)
  {
    assert forall j :: 0 <= j <= i ==> rs[..n][j] == rs[j];
  }

  /** Dedup keeps exactly the first row of each content: every such row, and nothing else. */
  lemma {:induction false} DedupExact(rs: seq<Record>)
    ensures forall i :: 0 <= i < |rs| && FirstOf(rs, i) ==> rs[i] in Dedup(rs)
    ensures forall r :: r in Dedup(rs) ==> exists i :: 0 <= i < |rs| && rs[i] == r && FirstOf(rs, i)
    decreases |rs|
  {
    if rs != [] {
      var n := |rs| - 1;
      var pre := rs[..n];
      var r := rs[n];
      var d := Dedup(pre);
      DedupExact(pre);
      DedupContents(pre);
      var appended := !(r.content.None? || r.content.value in Contents(d));
      assert Dedup(rs) == if appended then d + [r] else d;
      forall i | 0 <= i < |rs| && FirstOf(rs, i)
        ensures rs[i] in Dedup(rs)
      {
        if i < n {
          FirstOfPrefix(rs, n, i);
          assert pre[i] == rs[i];
        } else {
          FirstNew(pre, r);
        }
      }
      forall x | x in Dedup(rs)
        ensures exists i :: 0 <= i < |rs| && rs[i] == x && FirstOf(rs, i)
      {
        if x in d {
          var i :| 0 <= i < |pre| && pre[i] == x && FirstOf(pre, i);
          FirstOfPrefix(rs, n, i);
          assert rs[i] == x && FirstOf(rs, i);
        } else {
          assert appended && x == r;
          NewFirst(pre, r);
          assert rs[n] == x && FirstOf(rs, n);
        }
      }
    }
  }

  /** The last row is a first occurrence exactly when its content is new to the rows before it. */
  lemma FirstNew(pre: seq<Record>, r: Record)
    requires FirstOf(pre + [r], |pre|)
    ensures r.content.Some? && r.content.value !in Contents(pre)
  {
    var rs := pre + [r];
    forall q | q in pre
      ensures q.content != r.content
    {
      var j :| 0 <= j < |pre| && pre[j] == q;
      assert rs[j] == pre[j];
    }
  }

  lemma NewFirst(pre: seq<Record>, r: Record)
    requires r.content.Some? && r.content.value !in Contents(pre)
    ensures FirstOf(pre + [r], |pre|)
  {
    var rs := pre + [r];
    forall j | 0 <= j < |pre|
      ensures rs[j].content != r.content
    {
      assert rs[j] == pre[j] && pre[j] in pre;
    }
  }

  /** The length filter keeps exactly the rows long enough. */
  lemma {:induction false} LengthFilterExact(rs: seq<Record>)
    ensures forall r :: r in LengthFilter(rs) <==> r in rs && LongEnough(r)
    decreases |rs|
  {
    if rs != [] {
      var pre := rs[..|rs| - 1];
      var r := rs[|rs| - 1];
      LengthFilterExact(pre);
      assert rs == pre + [r];
      LengthFilterSnoc(pre, r);
      assert forall x :: x in rs <==> x in pre || x == r;
    }
  }

  /**
   * The script keeps a row exactly when it is the first row with its
   * content and that content strips to at least MinContentLen runes;
   * nothing else survives.
   */
  lemma CleanExact(rs: seq<Record>)
    ensures forall i :: 0 <= i < |rs| && FirstOf(rs, i) && |Strip(rs[i].content.value)| >= MinContentLen ==>
      rs[i] in CleanAsWritten(rs)
    ensures forall r :: r in CleanAsWritten(rs) ==>
      LongEnough(r) && exists i :: 0 <= i < |rs| && rs[i] == r && FirstOf(rs, i)
  {
    AmbiguityFilterIsNoOp(rs);
    DedupExact(rs);
    LengthFilterExact(Dedup(rs));
  }
}
