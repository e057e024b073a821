/**
 * The SymSpell core of the spell checker: prefix truncation, delete-variant
 * generation by breadth-first search, the optimal-string-alignment edit
 * distance over three rotating rows, an insertion sort of suggestions, and
 * the index lookup that ties them together. Strings are rune sequences.
 */
module SpellSymspell {
  import AzCase
  import Sorting

  /** Largest edit distance the index is built for. */
  const MaxEditDistance: nat := 2
  /** Only this many leading runes of a word feed its delete variants. */
  const PrefixLength: nat := 7

  /** A correction candidate: the term, its edit distance from the input, its corpus frequency. */
  datatype Suggestion = Suggestion(term: string, distance: int, frequency: int)

  function Min(a: int, b: int): int { if a <= b then a else b }
  function Abs(x: int): nat { if x < 0 then -x else x }

  // ---------------------------------------------------------------------
  // truncateToRunes

  /** truncateToRunes: the rune loop stops when the count reaches n; a negative n never stops it. */
  method TruncateToRunes(s: string, n: int) returns (r: string)
    ensures n >= 0 ==> r == s[..Min(n, |s|)]
    ensures n < 0 ==> r == s
  {
    var count := 0;
    var i := 0;
    while i < |s|
      invariant 0 <= i <= |s| && count == i
      invariant n >= 0 ==> i <= n
    {
      if count == n {
        return s[..i];
      }
      count := count + 1;
      i := i + 1;
    }
    return s;
  }

  // ---------------------------------------------------------------------
  // generateDeletes

  /** The strings one deleted rune away from w. */
  function Deletions(w: string): set<string> {
    set i | 0 <= i < |w| :: DelAt(w, i)
  }

  /** w without its rune at i. */
  function DelAt(w: string, i: nat): (r: string)
    requires i < |w|
    ensures |r| == |w| - 1
  {
    w[..i] + w[i + 1..]
  }

  /** The strings exactly k successive deletions away from s. */
  function DeletesAt(s: string, k: nat): set<string> {
    if k == 0 then {s}
    else set v, i | v in DeletesAt(s, k - 1) && 0 <= i < |v| :: DelAt(v, i)
  }

  /** The strings 1 to d deletions away from s. */
  function Reach(s: string, d: nat): set<string> {
    if d == 0 then {} else Reach(s, d - 1) + DeletesAt(s, d)
  }

  /** k deletions shorten s by k runes. */
  lemma {:induction false} DeletesAtLength(s: string, k: nat, w: string)
    requires w in DeletesAt(s, k)
    ensures |w| + k == |s|
  {
    if k > 0 {
      var v, i :| v in DeletesAt(s, k - 1) && 0 <= i < |v| && w == DelAt(v, i);
      DeletesAtLength(s, k - 1, v);
    }
  }

  /** Reach(s, d) gathers the levels 1 to d. */
  lemma {:induction false} ReachLevels(s: string, d: nat, w: string)
    ensures w in Reach(s, d) <==> exists k :: 1 <= k <= d && w in DeletesAt(s, k)
  {
    if d > 0 {
      ReachLevels(s, d - 1, w);
      assert Reach(s, d) == Reach(s, d - 1) + DeletesAt(s, d);
      if w in Reach(s, d) {
        if w in DeletesAt(s, d) {
          assert 1 <= d <= d && w in DeletesAt(s, d);
        } else {
          var k :| 1 <= k <= d - 1 && w in DeletesAt(s, k);
          assert 1 <= k <= d && w in DeletesAt(s, k);
        }
      }
      if exists k :: 1 <= k <= d && w in DeletesAt(s, k) {
        var k :| 1 <= k <= d && w in DeletesAt(s, k);
        if k < d {
          assert 1 <= k <= d - 1 && w in DeletesAt(s, k);
        }
      }
    }
  }

  /** Everything in Reach is strictly shorter than s. */
  lemma ReachShorter(s: string, d: nat, w: string)
    requires w in Reach(s, d)
    ensures |w| < |s|
  {
    ReachLevels(s, d, w);
    var k :| 1 <= k <= d && w in DeletesAt(s, k);
    DeletesAtLength(s, k, w);
  }

  /** The deepest level the search reaches: dist itself, or 1 when dist is negative. */
  function Depth(dist: int): nat { if dist >= 1 then dist else 1 }

  /** A queue entry: a string and the number of deletions that produced it. */
  datatype Item = Item(word: string, depth: nat)

  /** No string occurs twice. */
  predicate Unique(rs: seq<string>) { forall i, j :: 0 <= i < j < |rs| ==> rs[i] != rs[j] }

  /** Every queued entry is a string of its own level, above the last level, already seen. */
  ghost predicate QueueOk(s: string, dd: nat, queue: seq<Item>, seen: set<string>) {
    forall q :: q in queue ==>
      q.depth < dd && q.word in DeletesAt(s, q.depth) && (q.word == s || q.word in seen)
  }

  /** Every seen string above the last level is still queued or has had all its deletions seen. */
  ghost predicate Frontier(s: string, dd: nat, queue: seq<Item>, seen: set<string>) {
    forall w {:trigger Deletions(w)} :: (w == s || w in seen) && |w| + dd > |s| ==>
      (exists q :: q in queue && q.word == w) || Deletions(w) <= seen
  }

  /** The invariant of the breadth-first search. */
  ghost predicate Bfs(s: string, dd: nat, queue: seq<Item>, seen: set<string>, results: seq<string>) {
    (forall w :: w in seen <==> w in results)
    && Unique(results)
    && seen <= Reach(s, dd)
    && QueueOk(s, dd, queue, seen)
    && Frontier(s, dd, queue, seen)
  }

  /** One deletion from a string of level k is a string of level k + 1, inside Reach when k < dd. */
  lemma NextLevel(s: string, dd: nat, v: string, k: nat, i: nat)
    requires v in DeletesAt(s, k) && k < dd && i < |v|
    ensures DelAt(v, i) in DeletesAt(s, k + 1)
    ensures DelAt(v, i) in Reach(s, dd)
  {
    ReachLevels(s, dd, DelAt(v, i));
  }

  /** When no entry is left, every level from 1 to dd has been seen. */
  lemma {:induction false} Closed(s: string, dd: nat, seen: set<string>, k: nat)
    requires 1 <= k <= dd
    requires forall w {:trigger Deletions(w)} :: (w == s || w in seen) && |w| + dd > |s| ==> Deletions(w) <= seen
    ensures DeletesAt(s, k) <= seen
  {
    forall w | w in DeletesAt(s, k) ensures w in seen {
      var v, i :| v in DeletesAt(s, k - 1) && 0 <= i < |v| && w == DelAt(v, i);
      if k > 1 {
        Closed(s, dd, seen, k - 1);
      }
      DeletesAtLength(s, k - 1, v);
      assert w in Deletions(v);
    }
  }

  lemma ClosedReach(s: string, dd: nat, seen: set<string>)
    requires 1 <= dd
    requires forall w {:trigger Deletions(w)} :: (w == s || w in seen) && |w| + dd > |s| ==> Deletions(w) <= seen
    ensures Reach(s, dd) <= seen
  {
    forall w | w in Reach(s, dd) ensures w in seen {
      ReachLevels(s, dd, w);
      var k :| 1 <= k <= dd && w in DeletesAt(s, k);
      Closed(s, dd, seen, k);
    }
  }

  /** A subset is no larger than its superset. */
  lemma {:induction false} SubsetCard(a: set<string>, b: set<string>)
    requires a <= b
    ensures |a| <= |b|
    decreases |a|
  {
    if a != {} {
      var x :| x in a;
      assert a == (a - {x}) + {x};
      assert b == (b - {x}) + {x};
      SubsetCard(a - {x}, b - {x});
    }
  }

  /** A strictly larger seen set inside Reach leaves strictly fewer strings unseen. */
  lemma Shrinks(all: set<string>, seen: set<string>, seen': set<string>)
    requires seen <= seen' <= all && seen != seen'
    ensures |all - seen'| < |all - seen|
  {
    var x :| x in seen' && x !in seen;
    var rest := all - seen';
    assert x !in rest;
    assert |rest + {x}| == |rest| + 1;
    SubsetCard(rest + {x}, all - seen);
  }

  /** Seen strings and results agree, and no result repeats. */
  ghost predicate Recorded(seen: set<string>, results: seq<string>) {
    (forall w :: w in seen <==> w in results) && Unique(results)
  }

  /** Frontier, except that the entry being expanded may still lack its deletions. */
  ghost predicate FrontierBut(s: string, dd: nat, queue: seq<Item>, seen: set<string>, r: string) {
    forall w {:trigger Deletions(w)} :: (w == s || w in seen) && |w| + dd > |s| ==>
      (exists q :: q in queue && q.word == w) || w == r || Deletions(w) <= seen
  }

  /** The dequeued entry: a string of its level, above the last level. */
  ghost predicate Current(s: string, dd: nat, current: Item) {
    current.depth < dd && current.word in DeletesAt(s, current.depth) && |current.word| + current.depth == |s|
  }

  /** The inner loop's invariant after its first i deletions. */
  ghost predicate ExpandInv(s: string, dd: nat, current: Item, i: nat, queue0: seq<Item>, seen0: set<string>,
                            queue: seq<Item>, seen: set<string>, results: seq<string>) {
    Current(s, dd, current) && i <= |current.word|
    && seen0 <= seen <= Reach(s, dd) && (seen == seen0 ==> queue == queue0)
    && Recorded(seen, results) && QueueOk(s, dd, queue, seen)
    && (forall k :: 0 <= k < i ==> DelAt(current.word, k) in seen)
    && FrontierBut(s, dd, queue, seen, current.word)
  }

  /** Recording a new string keeps Recorded. */
  lemma RecordNew(seen: set<string>, results: seq<string>, del: string)
    requires Recorded(seen, results) && del !in seen
    ensures Recorded(seen + {del}, results + [del])
  {
  }

  /** A larger seen set keeps the queue well formed. */
  lemma QueueWiden(s: string, dd: nat, queue: seq<Item>, seen: set<string>, seen': set<string>)
    requires QueueOk(s, dd, queue, seen) && seen <= seen'
    ensures QueueOk(s, dd, queue, seen')
  {
  }

  /** A seen string of its own level, above the last level, may join the queue. */
  lemma QueueSnoc(s: string, dd: nat, queue: seq<Item>, seen: set<string>, w: string, k: nat)
    requires QueueOk(s, dd, queue, seen)
    requires k < dd && w in DeletesAt(s, k) && w in seen
    ensures QueueOk(s, dd, queue + [Item(w, k)], seen)
  {
  }

  /** Recording del keeps FrontierBut when del is on the last level. */
  lemma FrontierLast(s: string, dd: nat, queue: seq<Item>, seen: set<string>, r: string, del: string)
    requires FrontierBut(s, dd, queue, seen, r) && |del| + dd <= |s|
    ensures FrontierBut(s, dd, queue, seen + {del}, r)
  {
  }

  /** Recording and queuing del keeps FrontierBut. */
  lemma FrontierQueued(s: string, dd: nat, queue: seq<Item>, seen: set<string>, r: string, item: Item)
    requires FrontierBut(s, dd, queue, seen, r)
    ensures FrontierBut(s, dd, queue + [item], seen + {item.word}, r)
  {
    forall w | (w == s || w in seen + {item.word}) && |w| + dd > |s|
      ensures (exists q :: q in queue + [item] && q.word == w) || w == r || Deletions(w) <= seen + {item.word}
    {
      if w == item.word {
        assert item in queue + [item];
      } else if (exists q :: q in queue && q.word == w) {
        var q :| q in queue && q.word == w;
        assert q in queue + [item];
      }
    }
  }

  /** A deletion already seen leaves everything as it was. */
  lemma StepSeen(s: string, dd: nat, current: Item, i: nat, queue0: seq<Item>, seen0: set<string>,
                 queue: seq<Item>, seen: set<string>, results: seq<string>)
    requires i < |current.word| && ExpandInv(s, dd, current, i, queue0, seen0, queue, seen, results)
    requires DelAt(current.word, i) in seen
    ensures ExpandInv(s, dd, current, i + 1, queue0, seen0, queue, seen, results)
  {
  }

  /** The facts about a new deletion that both kinds of step need. */
  lemma StepFacts(s: string, dd: nat, current: Item, i: nat, seen: set<string>, results: seq<string>)
    requires Current(s, dd, current) && i < |current.word|
    requires Recorded(seen, results) && DelAt(current.word, i) !in seen
    ensures DelAt(current.word, i) in DeletesAt(s, current.depth + 1) && DelAt(current.word, i) in Reach(s, dd)
    ensures |DelAt(current.word, i)| + current.depth + 1 == |s|
    ensures Recorded(seen + {DelAt(current.word, i)}, results + [DelAt(current.word, i)])
  {
    NextLevel(s, dd, current.word, current.depth, i);
    RecordNew(seen, results, DelAt(current.word, i));
  }

  /** A new deletion on the last level is recorded only. */
  lemma StepLast(s: string, dd: nat, current: Item, i: nat, queue0: seq<Item>, seen0: set<string>,
                 queue: seq<Item>, seen: set<string>, results: seq<string>)
    requires i < |current.word| && ExpandInv(s, dd, current, i, queue0, seen0, queue, seen, results)
    requires DelAt(current.word, i) !in seen && current.depth + 1 >= dd
    ensures ExpandInv(s, dd, current, i + 1, queue0, seen0, queue, seen + {DelAt(current.word, i)},
                      results + [DelAt(current.word, i)])
  {
    var del := DelAt(current.word, i);
    StepFacts(s, dd, current, i, seen, results);
    QueueWiden(s, dd, queue, seen, seen + {del});
    FrontierLast(s, dd, queue, seen, current.word, del);
  }

  /** A new deletion above the last level is recorded and queued. */
  lemma StepQueued(s: string, dd: nat, current: Item, i: nat, queue0: seq<Item>, seen0: set<string>,
                   queue: seq<Item>, seen: set<string>, results: seq<string>)
    requires i < |current.word| && ExpandInv(s, dd, current, i, queue0, seen0, queue, seen, results)
    requires DelAt(current.word, i) !in seen && current.depth + 1 < dd
    ensures ExpandInv(s, dd, current, i + 1, queue0, seen0, queue + [Item(DelAt(current.word, i), current.depth + 1)],
                      seen + {DelAt(current.word, i)}, results + [DelAt(current.word, i)])
  {
    var del := DelAt(current.word, i);
    var item := Item(del, current.depth + 1);
    StepFacts(s, dd, current, i, seen, results);
    QueueWiden(s, dd, queue, seen, seen + {del});
    QueueSnoc(s, dd, queue, seen + {del}, del, current.depth + 1);
    FrontierQueued(s, dd, queue, seen, current.word, item);
    PrefixDeleted(current.word, i, seen, del);
    assert del !in seen0;
  }

  /** The deletions at runes 0 to i are seen once the one at i is. */
  lemma PrefixDeleted(w: string, i: nat, seen: set<string>, del: string)
    requires i < |w| && del == DelAt(w, i)
    requires forall k :: 0 <= k < i ==> DelAt(w, k) in seen
    ensures forall k :: 0 <= k < i + 1 ==> DelAt(w, k) in seen + {del}
  {
  }

  /** One step of the inner loop: the deletion at rune i. */
  method ExpandStep(s: string, dd: nat, current: Item, i: nat, ghost queue0: seq<Item>, ghost seen0: set<string>,
                    queue: seq<Item>, seen: set<string>, results: seq<string>)
    returns (queue': seq<Item>, seen': set<string>, results': seq<string>)
    requires i < |current.word| && ExpandInv(s, dd, current, i, queue0, seen0, queue, seen, results)
    ensures ExpandInv(s, dd, current, i + 1, queue0, seen0, queue', seen', results')
  {
    var del := DelAt(current.word, i);
    if del in seen {
      StepSeen(s, dd, current, i, queue0, seen0, queue, seen, results);
      return queue, seen, results;
    }
    if current.depth + 1 < dd {
      StepQueued(s, dd, current, i, queue0, seen0, queue, seen, results);
      queue' := queue + [Item(del, current.depth + 1)];
    } else {
      StepLast(s, dd, current, i, queue0, seen0, queue, seen, results);
      queue' := queue;
    }
    seen' := seen + {del};
    results' := results + [del];
  }

  /**
   * The inner loop over the runes of one dequeued entry: each deletion not
   * seen before is recorded, and queued when it is above the last level.
   */
  method Expand(s: string, dd: nat, current: Item, queue: seq<Item>, seen: set<string>, results: seq<string>)
    returns (queue': seq<Item>, seen': set<string>, results': seq<string>)
    requires 1 <= dd && Bfs(s, dd, [current] + queue, seen, results)
    ensures Bfs(s, dd, queue', seen', results')
    ensures seen <= seen' <= Reach(s, dd) && (seen' == seen ==> queue' == queue)
  {
    queue', seen', results' := queue, seen, results;
    var r := current.word;
    assert current in [current] + queue;
    DeletesAtLength(s, current.depth, r);
    assert QueueOk(s, dd, queue, seen) by {
      forall q | q in queue ensures q in [current] + queue { }
    }
    assert FrontierBut(s, dd, queue, seen, r) by {
      forall w | (w == s || w in seen) && |w| + dd > |s|
        ensures (exists q :: q in queue && q.word == w) || w == r || Deletions(w) <= seen
      {
        if exists q :: q in [current] + queue && q.word == w {
          var q :| q in [current] + queue && q.word == w;
          if q != current { assert q in queue; }
        }
      }
    }
    if |r| == 0 {
      assert Deletions(r) == {};
      return;
    }
    var i := 0;
    while i < |r|
      invariant 0 <= i <= |r|
      invariant ExpandInv(s, dd, current, i, queue, seen, queue', seen', results')
    {
      queue', seen', results' := ExpandStep(s, dd, current, i, queue, seen, queue', seen', results');
      i := i + 1;
    }
    assert Deletions(r) <= seen';
  }

  /**
   * generateDeletes: nothing for distance 0 or an empty string; otherwise
   * every string 1 to Depth(dist) deletions away, each once, never s itself.
   */
  method GenerateDeletes(s: string, dist: int) returns (results: seq<string>)
    ensures dist == 0 || s == "" ==> results == []
    ensures dist != 0 && s != "" ==> forall w :: w in results <==> w in Reach(s, Depth(dist))
    ensures Unique(results) && s !in results
  {
    results := [];
    if dist == 0 || |s| == 0 {
      return;
    }
    var dd := Depth(dist);
    var seen: set<string> := {};
    var queue := [Item(s, 0)];
    while |queue| > 0
      invariant Bfs(s, dd, queue, seen, results)
      decreases |Reach(s, dd) - seen|, |queue|
    {
      var current := queue[0];
      assert queue == [current] + queue[1..];
      ghost var before := seen;
      queue, seen, results := Expand(s, dd, current, queue[1..], seen, results);
      if seen != before {
        Shrinks(Reach(s, dd), before, seen);
      }
    }
    ClosedReach(s, dd, seen);
    if s in results {
      ReachShorter(s, dd, s);
    }
  }

  // ---------------------------------------------------------------------
  // damerauLevenshtein

  function Min3(x: int, y: int, z: int): int { Min(Min(x, y), z) }

  /**
   * One cell of the table from its neighbours: deletion (up), insertion
   * (left), substitution (diag), and, when the last two runes of each side
   * are swapped, a transposition from two cells back (diag2) that costs
   * the same as substituting the last rune.
   */
  function Cell(a: string, b: string, i: nat, j: nat, up: nat, left: nat, diag: nat, diag2: nat): nat
    requires 1 <= i <= |a| && 1 <= j <= |b|
  {
    var cost := if a[i - 1] == b[j - 1] then 0 else 1;
    var best := Min3(up + 1, left + 1, diag + cost);
    if i > 1 && j > 1 && a[i - 1] == b[j - 2] && a[i - 2] == b[j - 1]
    then Min(best, diag2 + cost)
    else best
  }

  /** The optimal-string-alignment distance between a[..i] and b[..j]. */
  function Osa(a: string, b: string, i: nat, j: nat): nat
    requires i <= |a| && j <= |b|
    decreases i + j
  {
    if i == 0 then j
    else if j == 0 then i
    else Cell(a, b, i, j, Osa(a, b, i - 1, j), Osa(a, b, i, j - 1), Osa(a, b, i - 1, j - 1),
              if i > 1 && j > 1 then Osa(a, b, i - 2, j - 2) else 0)
  }

  /** Every inner cell is computed from its four neighbours. */
  lemma OsaUnfold(a: string, b: string, i: nat, j: nat)
    requires 1 <= i <= |a| && 1 <= j <= |b|
    ensures Osa(a, b, i, j) == Cell(a, b, i, j, Osa(a, b, i - 1, j), Osa(a, b, i, j - 1), Osa(a, b, i - 1, j - 1),
                                     if i > 1 && j > 1 then Osa(a, b, i - 2, j - 2) else 0)
  {
  }

  /** A cell is at most one more than any of its three direct neighbours. */
  lemma CellAtMost(a: string, b: string, i: nat, j: nat, up: nat, left: nat, diag: nat, diag2: nat)
    requires 1 <= i <= |a| && 1 <= j <= |b|
    ensures Cell(a, b, i, j, up, left, diag, diag2) <= up + 1
    ensures Cell(a, b, i, j, up, left, diag, diag2) <= left + 1
    ensures Cell(a, b, i, j, up, left, diag, diag2) <= diag + (if a[i - 1] == b[j - 1] then 0 else 1)
  {
  }

  /** A zero cell comes from a matching last rune and a zero diagonal, directly or across a swap. */
  lemma CellZero(a: string, b: string, i: nat, j: nat, up: nat, left: nat, diag: nat, diag2: nat)
    requires 1 <= i <= |a| && 1 <= j <= |b| && Cell(a, b, i, j, up, left, diag, diag2) == 0
    ensures a[i - 1] == b[j - 1]
    ensures diag == 0 || (i > 1 && j > 1 && a[i - 2] == b[j - 2] && diag2 == 0)
  {
  }

  /** Swapping the strings swaps the up and left neighbours. */
  lemma CellSymmetric(a: string, b: string, i: nat, j: nat, up: nat, left: nat, diag: nat, diag2: nat)
    requires 1 <= i <= |a| && 1 <= j <= |b|
    ensures Cell(a, b, i, j, up, left, diag, diag2) == Cell(b, a, j, i, left, up, diag, diag2)
  {
  }

  /** The distance between whole strings. */
  function Distance(a: string, b: string): nat {
    Osa(a, b, |a|, |b|)
  }

  /** A cell is at least m when its neighbours leave no cheaper way to reach it. */
  lemma CellAtLeast(a: string, b: string, i: nat, j: nat, up: nat, left: nat, diag: nat, diag2: nat, m: int)
    requires 1 <= i <= |a| && 1 <= j <= |b|
    requires up + 1 >= m && left + 1 >= m && diag >= m && (i > 1 && j > 1 ==> diag2 >= m)
    ensures Cell(a, b, i, j, up, left, diag, diag2) >= m
  {
  }

  /** Every alignment needs at least as many edits as the lengths differ. */
  lemma {:induction false} OsaLowerBound(a: string, b: string, i: nat, j: nat)
    requires i <= |a| && j <= |b|
    ensures Osa(a, b, i, j) >= Abs(i - j)
    decreases i + j
  {
    if i > 0 && j > 0 {
      var up, left, diag := Osa(a, b, i - 1, j), Osa(a, b, i, j - 1), Osa(a, b, i - 1, j - 1);
      var diag2 := if i > 1 && j > 1 then Osa(a, b, i - 2, j - 2) else 0;
      OsaLowerBound(a, b, i - 1, j);
      OsaLowerBound(a, b, i, j - 1);
      OsaLowerBound(a, b, i - 1, j - 1);
      if i > 1 && j > 1 {
        OsaLowerBound(a, b, i - 2, j - 2);
      }
      CellAtLeast(a, b, i, j, up, left, diag, diag2, Abs(i - j));
    }
  }

  /** No alignment needs more edits than the longer string has runes. */
  lemma {:induction false} OsaUpperBound(a: string, b: string, i: nat, j: nat)
    requires i <= |a| && j <= |b|
    ensures Osa(a, b, i, j) <= if i < j then j else i
    decreases i + j
  {
    if i > 0 && j > 0 {
      OsaUpperBound(a, b, i - 1, j - 1);
      CellAtMost(a, b, i, j, Osa(a, b, i - 1, j), Osa(a, b, i, j - 1), Osa(a, b, i - 1, j - 1),
                 if i > 1 && j > 1 then Osa(a, b, i - 2, j - 2) else 0);
    }
  }

  /** Equal prefixes are at distance 0. */
  lemma {:induction false} OsaSame(a: string, b: string, n: nat)
    requires n <= |a| && n <= |b| && a[..n] == b[..n]
    ensures Osa(a, b, n, n) == 0
  {
    if n > 0 {
      assert a[..n - 1] == a[..n][..n - 1] && b[..n - 1] == b[..n][..n - 1];
      assert a[n - 1] == a[..n][n - 1] && b[n - 1] == b[..n][n - 1];
      OsaSame(a, b, n - 1);
    }
  }

  /** Distance 0 means the prefixes are equal. */
  lemma {:induction false} OsaZero(a: string, b: string, i: nat, j: nat)
    requires i <= |a| && j <= |b| && Osa(a, b, i, j) == 0
    ensures i == j && a[..i] == b[..j]
    decreases i + j
  {
    if i > 0 && j > 0 {
      var d2 := if i > 1 && j > 1 then Osa(a, b, i - 2, j - 2) else 0;
      CellZero(a, b, i, j, Osa(a, b, i - 1, j), Osa(a, b, i, j - 1), Osa(a, b, i - 1, j - 1), d2);
      if Osa(a, b, i - 1, j - 1) != 0 {
        var e2 := if i > 2 && j > 2 then Osa(a, b, i - 3, j - 3) else 0;
        CellAtMost(a, b, i - 1, j - 1, Osa(a, b, i - 2, j - 1), Osa(a, b, i - 1, j - 2), Osa(a, b, i - 2, j - 2), e2);
      }
      OsaZero(a, b, i - 1, j - 1);
      assert a[..i] == a[..i - 1] + [a[i - 1]] && b[..j] == b[..j - 1] + [b[j - 1]];
    }
  }

  /** The distance is 0 exactly for equal strings. */
  lemma DistanceZeroIff(a: string, b: string)
    ensures Distance(a, b) == 0 <==> a == b
  {
    if a == b {
      OsaSame(a, b, |a|);
    }
    if Distance(a, b) == 0 {
      OsaZero(a, b, |a|, |b|);
      assert a == a[..|a|] && b == b[..|b|];
    }
  }

  /** The distance does not depend on the order of its arguments. */
  lemma {:induction false} OsaSymmetric(a: string, b: string, i: nat, j: nat)
    requires i <= |a| && j <= |b|
    ensures Osa(a, b, i, j) == Osa(b, a, j, i)
    decreases i + j
  {
    if i > 0 && j > 0 {
      OsaSymmetric(a, b, i - 1, j);
      OsaSymmetric(a, b, i, j - 1);
      OsaSymmetric(a, b, i - 1, j - 1);
      if i > 1 && j > 1 {
        OsaSymmetric(a, b, i - 2, j - 2);
      }
      CellSymmetric(a, b, i, j, Osa(a, b, i - 1, j), Osa(a, b, i, j - 1), Osa(a, b, i - 1, j - 1),
                    if i > 1 && j > 1 then Osa(a, b, i - 2, j - 2) else 0);
    }
  }

  lemma DistanceSymmetric(a: string, b: string)
    ensures Distance(a, b) == Distance(b, a)
  {
    OsaSymmetric(a, b, |a|, |b|);
  }

  /** Swapping the last two, different, runes of a string is one edit. */
  lemma AdjacentSwap(x: string, p: char, q: char)
    requires p != q
    ensures Distance(x + [p, q], x + [q, p]) == 1
  {
    var a, b := x + [p, q], x + [q, p];
    var n := |x|;
    assert a[..n] == x == b[..n];
    OsaSame(a, b, n);
    assert a[n + 1] == b[n] && a[n] == b[n + 1];
    assert Osa(a, b, n + 2, n + 2) <= Osa(a, b, n, n) + 1;
    DistanceZeroIff(a, b);
    assert a[n] != b[n];
  }

  /**
   * damerauLevenshtein: an empty side gives the other's length; a length
   * difference above MaxEditDistance is returned as is; otherwise the
   * distance, computed over three rows that rotate after each rune of a.
   */
  method DamerauLevenshtein(a: string, b: string) returns (dist: int)
    ensures dist == if a == [] then |b| else if b == [] then |a|
                    else if Abs(|a| - |b|) > MaxEditDistance then Abs(|a| - |b|) else Distance(a, b)
  {
    var la, lb := |a|, |b|;
    if la == 0 {
      return lb;
    }
    if lb == 0 {
      return la;
    }
    var diff := la - lb;
    if diff < 0 {
      diff := -diff;
    }
    if diff > MaxEditDistance {
      return diff;
    }
    var prev2 := new int[lb + 1];
    var prev := new int[lb + 1];
    var curr := new int[lb + 1];
    var j := 0;
    while j <= lb
      invariant 0 <= j <= lb + 1
      invariant forall k :: 0 <= k < j ==> prev[k] == Osa(a, b, 0, k)
    {
      prev[j] := j;
      j := j + 1;
    }
    assert RowIs(prev, a, b, 0);
    var i := 1;
    while i <= la
      invariant 1 <= i <= la + 1
      invariant prev2.Length == lb + 1 && curr.Length == lb + 1
      invariant prev != prev2 && prev != curr && prev2 != curr
      invariant fresh(prev) && fresh(prev2) && fresh(curr)
      invariant RowIs(prev, a, b, i - 1)
      invariant i >= 2 ==> RowIs(prev2, a, b, i - 2)
    {
      Row(a, b, i, prev2, prev, curr);
      prev2, prev, curr := prev, curr, prev2;
      i := i + 1;
    }
    return prev[lb];
  }

  /** Row i of the table: the distances of a[..i] from every prefix of b. */
  ghost predicate RowIs(r: array<int>, a: string, b: string, i: nat)
    reads r
  {
    i <= |a| && r.Length == |b| + 1 && forall k {:trigger r[k]} :: 0 <= k <= |b| ==> r[k] == Osa(a, b, i, k)
  }

  /** One row of the table: curr[k] becomes the distance of a[..i] and b[..k]. */
  method Row(a: string, b: string, i: nat, prev2: array<int>, prev: array<int>, curr: array<int>)
    requires 1 <= i <= |a| && prev2.Length == |b| + 1 && curr.Length == |b| + 1
    requires prev != curr && prev2 != curr
    requires RowIs(prev, a, b, i - 1)
    requires i >= 2 ==> RowIs(prev2, a, b, i - 2)
    modifies curr
    ensures RowIs(curr, a, b, i)
  {
    curr[0] := i;
    var j := 1;
    while j <= |b|
      invariant 1 <= j <= |b| + 1
      invariant forall k {:trigger curr[k]} :: 0 <= k < j ==> curr[k] == Osa(a, b, i, k)
    {
      var up, left, diag := prev[j], curr[j - 1], prev[j - 1];
      var diag2 := if i > 1 && j > 1 then prev2[j - 2] else 0;
      assert up == Osa(a, b, i - 1, j) && diag == Osa(a, b, i - 1, j - 1);
      assert i > 1 && j > 1 ==> diag2 == Osa(a, b, i - 2, j - 2);
      OsaUnfold(a, b, i, j);
      curr[j] := Cell(a, b, i, j, up, left, diag, diag2);
      j := j + 1;
    }
  }

  /** The early exit never hides a distance within reach: the result is at most 2 exactly when the distance is. */
  lemma EarlyExitSound(a: string, b: string)
    requires a != [] && b != [] && Abs(|a| - |b|) > MaxEditDistance
    ensures Distance(a, b) > MaxEditDistance
  {
    OsaLowerBound(a, b, |a|, |b|);
  }

  // ---------------------------------------------------------------------
  // sortSuggestions

  /** suggestionLess: smaller distance first, then higher frequency. */
  predicate SuggestionLess(x: Suggestion, y: Suggestion) {
    if x.distance != y.distance then x.distance < y.distance else x.frequency > y.frequency
  }

  /** No suggestion comes before one that is less than it. */
  predicate Sorted(s: seq<Suggestion>) {
    Sorting.SortedBy(s, SuggestionLess)
  }

  /** SuggestionLess is a strict weak order: distance, then frequency, are both total keys. */
  lemma SuggestionLessPreorder()
    ensures Sorting.Preorder(SuggestionLess)
  {
  }

  /**
   * sortSuggestions: the insertion sort over the slice, with suggestionLess
   * as the comparison; the array ends sorted, holds the same suggestions,
   * and suggestions tied on distance and frequency keep their order.
   */
  method SortSuggestions(a: array<Suggestion>)
    modifies a
    ensures Sorted(a[..]) && multiset(a[..]) == multiset(old(a[..]))
    ensures Sorting.Stable(old(a[..]), a[..], SuggestionLess)
  {
    SuggestionLessPreorder();
    Sorting.SortBy(a, SuggestionLess);
  }

  // ---------------------------------------------------------------------
  // lookup

  /**
   * The index built at start-up: word frequencies, the words in insertion
   * order, the longest word in runes, and for each delete variant the
   * positions of the words whose prefix produces it.
   */
  datatype Index = Index(words: map<string, int>, deletes: map<string, seq<nat>>, wordList: seq<string>, maxWordLen: int)

  /** Every word with a frequency is listed, and every position stored under a delete variant names a listed word. */
  ghost predicate ValidIndex(idx: Index) {
    (forall w :: w in idx.words ==> w in idx.wordList)
    && forall key, n :: key in idx.deletes && 0 <= n < |idx.deletes[key]| ==> idx.deletes[key][n] < |idx.wordList|
  }

  /** The requested distance, capped at MaxEditDistance. */
  function Clamp(maxDist: int): int { if maxDist > MaxEditDistance then MaxEditDistance else maxDist }

  /** A missing word has frequency 0. */
  function Freq(idx: Index, w: string): int { if w in idx.words then idx.words[w] else 0 }

  /**
   * A suggestion lookup may return for lower: a listed word, with its true
   * distance and its frequency, within md edits unless it is lower itself.
   */
  ghost predicate Found(idx: Index, lower: string, md: int, x: Suggestion) {
    x.term in idx.wordList && x.distance == Distance(lower, x.term) && (x.distance <= md || x.term == lower)
    && x.frequency == Freq(idx, x.term)
  }

  /** No two suggestions share a term. */
  predicate DistinctTerms(s: seq<Suggestion>) {
    forall x, y :: 0 <= x < y < |s| ==> s[x].term != s[y].term
  }

  /** What the candidate loops have gathered so far. */
  ghost predicate Gathered(idx: Index, lower: string, md: int, results: seq<Suggestion>, seen: set<string>) {
    (forall k :: 0 <= k < |results| ==>
      Found(idx, lower, md, results[k]) && results[k].distance <= md && results[k].term in seen)
    && DistinctTerms(results)
  }

  /** An empty side of the table is the other side's length. */
  lemma OsaEmpty(a: string, b: string)
    requires b == []
    ensures Distance(a, b) == |a|
  {
  }

  /** Every seen word within md edits of lower has been gathered. */
  ghost predicate AllKept(lower: string, md: int, results: seq<Suggestion>, seen: set<string>) {
    forall w :: w in seen && Distance(lower, w) <= md ==> exists k :: 0 <= k < |results| && results[k].term == w
  }

  /** The words at the positions in cands. */
  ghost predicate AtPositions(idx: Index, cands: seq<nat>, w: string) {
    exists n :: 0 <= n < |cands| && cands[n] < |idx.wordList| && idx.wordList[cands[n]] == w
  }

  /**
   * The candidates stored under one delete variant, each scored once: every
   * one of them ends up seen, nothing else is newly seen, and those within md
   * edits are gathered.
   */
  method AddCandidates(idx: Index, lower: string, md: int, cands: seq<nat>, results: seq<Suggestion>, seen: set<string>)
    returns (results': seq<Suggestion>, seen': set<string>)
    requires lower != [] && md <= MaxEditDistance
    requires forall n :: 0 <= n < |cands| ==> cands[n] < |idx.wordList|
    requires Gathered(idx, lower, md, results, seen) && AllKept(lower, md, results, seen)
    ensures Gathered(idx, lower, md, results', seen') && AllKept(lower, md, results', seen') && seen <= seen'
    ensures forall n :: 0 <= n < |cands| ==> idx.wordList[cands[n]] in seen'
    ensures forall w :: w in seen' ==> w in seen || AtPositions(idx, cands, w)
  {
    results', seen' := results, seen;
    for c := 0 to |cands|
      invariant Gathered(idx, lower, md, results', seen') && AllKept(lower, md, results', seen') && seen <= seen'
      invariant forall n :: 0 <= n < c ==> idx.wordList[cands[n]] in seen'
      invariant forall w :: w in seen' ==> w in seen || AtPositions(idx, cands[..c], w)
    {
      var candidate := idx.wordList[cands[c]];
      ListedGrows(idx, cands, c);
      if candidate !in seen' {
        results', seen' := Score(idx, lower, md, candidate, results', seen');
      }
    }
    assert cands[..|cands|] == cands;
  }

  /** One unseen listed word: marked seen, and gathered when it lies within md edits. */
  method Score(idx: Index, lower: string, md: int, candidate: string, results: seq<Suggestion>, seen: set<string>)
    returns (results': seq<Suggestion>, seen': set<string>)
    requires lower != [] && md <= MaxEditDistance && candidate in idx.wordList && candidate !in seen
    requires Gathered(idx, lower, md, results, seen) && AllKept(lower, md, results, seen)
    ensures Gathered(idx, lower, md, results', seen') && AllKept(lower, md, results', seen') && seen' == seen + {candidate}
  {
    results', seen' := results, seen + {candidate};
    var lenDiff := |lower| - |candidate|;
    if lenDiff < 0 {
      lenDiff := -lenDiff;
    }
    OsaLowerBound(lower, candidate, |lower|, |candidate|);
    if candidate == [] {
      OsaEmpty(lower, candidate);
    }
    if lenDiff > md {
      return;
    }
    var dist := DamerauLevenshtein(lower, candidate);
    if dist <= md {
      assert lenDiff == Abs(|lower| - |candidate|);
      assert dist == Distance(lower, candidate);
      var freq := if candidate in idx.words then idx.words[candidate] else 0;
      results' := results + [Suggestion(candidate, dist, freq)];
      assert results'[|results|].term == candidate;
      assert forall k :: 0 <= k < |results| ==> results'[k] == results[k];
    } else {
      assert Distance(lower, candidate) > md;
    }
  }

  /** Extending the prefix of cands by one position lists that position's word too. */
  lemma ListedGrows(idx: Index, cands: seq<nat>, c: nat)
    requires c < |cands| && forall n :: 0 <= n < |cands| ==> cands[n] < |idx.wordList|
    ensures forall w :: AtPositions(idx, cands[..c + 1], w) <==> AtPositions(idx, cands[..c], w) || w == idx.wordList[cands[c]]
  {
    forall w ensures AtPositions(idx, cands[..c + 1], w) <==> AtPositions(idx, cands[..c], w) || w == idx.wordList[cands[c]] {
      if AtPositions(idx, cands[..c], w) {
        var n :| 0 <= n < c && cands[..c][n] < |idx.wordList| && idx.wordList[cands[..c][n]] == w;
        assert cands[..c + 1][n] == cands[n];
      }
      if w == idx.wordList[cands[c]] {
        assert cands[..c + 1][c] == cands[c];
      }
      if AtPositions(idx, cands[..c + 1], w) {
        var n :| 0 <= n < c + 1 && cands[..c + 1][n] < |idx.wordList| && idx.wordList[cands[..c + 1][n]] == w;
        if n < c {
          assert cands[..c][n] == cands[n];
        }
      }
    }
  }

  /** Each value occurs at most once in a sequence of distinct elements. */
  lemma {:induction false} CountOne(s: seq<Suggestion>)
    requires DistinctTerms(s)
    ensures forall v :: multiset(s)[v] <= 1
  {
    if s != [] {
      var n := |s| - 1;
      assert s == s[..n] + [s[n]];
      CountOne(s[..n]);
      assert s[n] !in s[..n];
    }
  }

  /** A value at two positions occurs at least twice. */
  lemma CountTwo(t: seq<Suggestion>, x: nat, y: nat)
    requires x < y < |t| && t[x] == t[y]
    ensures multiset(t)[t[x]] >= 2
  {
    assert t == t[..y] + [t[y]] + t[y + 1..];
    assert t[x] in t[..y];
  }

  /** A rearrangement of suggestions with distinct terms has distinct terms. */
  lemma DistinctPerm(s: seq<Suggestion>, t: seq<Suggestion>)
    requires multiset(s) == multiset(t) && DistinctTerms(s)
    ensures DistinctTerms(t)
  {
    CountOne(s);
    forall x, y | 0 <= x < y < |t| ensures t[x].term != t[y].term {
      if t[x] == t[y] {
        CountTwo(t, x, y);
      } else {
        assert t[x] in multiset(s) && t[y] in multiset(s);
        var i :| 0 <= i < |s| && s[i] == t[x];
        var j :| 0 <= j < |s| && s[j] == t[y];
        assert i != j;
        if i < j { assert s[i].term != s[j].term; } else { assert s[j].term != s[i].term; }
      }
    }
  }

  /** The first PrefixLength runes of a word, which alone feed its delete variants. */
  function Prefix(w: string): string { w[..Min(PrefixLength, |w|)] }

  /**
   * The delete variants lookup reads for prefix at cap md: prefix itself
   * and, unless md is 0 or prefix is empty, every string 1 to Depth(md)
   * deletions away.
   */
  ghost function Keys(prefix: string, md: int): set<string> {
    (if md == 0 || prefix == "" then {} else Reach(prefix, Depth(md))) + {prefix}
  }

  /** A word the index stores under one of keys. */
  ghost predicate Stored(idx: Index, keys: set<string>, w: string) {
    exists key :: key in keys && key in idx.deletes && AtPositions(idx, idx.deletes[key], w)
  }

  /**
   * Lookup has something to find for lower at cap md: lower is not too long
   * for the index, and some word stored under the variants it reads lies
   * within md edits.
   */
  ghost predicate Reachable(idx: Index, lower: string, md: int) {
    |lower| - md <= idx.maxWordLen && exists w :: Stored(idx, Keys(Prefix(lower), md), w) && Distance(lower, w) <= md
  }

  /** Every word stored under the first d variants of dels has been seen. */
  ghost predicate Covered(idx: Index, dels: seq<string>, d: nat, seen: set<string>) {
    forall e, n ::
      (0 <= e < d && e < |dels| && dels[e] in idx.deletes && 0 <= n < |idx.deletes[dels[e]]|
       && idx.deletes[dels[e]][n] < |idx.wordList|) ==> idx.wordList[idx.deletes[dels[e]][n]] in seen
  }

  /** What Lookup below ensures of its result r for input; only the order of ties is left open. */
  ghost predicate LookedUp(idx: Index, input: string, maxDist: int, r: seq<Suggestion>) {
    (input == "" ==> r == [])
    && (input != "" && AzCase.ToLower(input) in idx.words ==>
       r == [Suggestion(AzCase.ToLower(input), 0, idx.words[AzCase.ToLower(input)])])
    && (input != "" && AzCase.ToLower(input) !in idx.words && |input| - Clamp(maxDist) > idx.maxWordLen ==> r == [])
    && (forall k :: 0 <= k < |r| ==> Found(idx, AzCase.ToLower(input), Clamp(maxDist), r[k]))
    && (AzCase.ToLower(input) !in idx.words ==> forall k :: 0 <= k < |r| ==> r[k].distance <= Clamp(maxDist))
    && (input != "" && AzCase.ToLower(input) !in idx.words && |input| - Clamp(maxDist) <= idx.maxWordLen ==>
       forall w :: (exists k :: 0 <= k < |r| && r[k].term == w) <==>
       Stored(idx, Keys(Prefix(AzCase.ToLower(input)), Clamp(maxDist)), w) && Distance(AzCase.ToLower(input), w) <= Clamp(maxDist))
    && (input != "" && Reachable(idx, AzCase.ToLower(input), Clamp(maxDist)) ==> r != [])
    && (Sorted(r) && DistinctTerms(r))
  }

  /**
   * lookup: "" gives nothing; maxDist is capped at 2; the lower-cased input,
   * when listed, is the only result, at distance 0; an input longer than
   * every word by more than the cap gives nothing; otherwise the words
   * stored under the delete variants of the input's prefix (and the prefix
   * itself) are scored, and those within the cap come back sorted, each
   * term once, with its true distance and frequency.
   */
  method Lookup(idx: Index, input: string, maxDist: int) returns (r: seq<Suggestion>)
    requires ValidIndex(idx)
    ensures input == "" ==> r == []
    ensures input != "" && AzCase.ToLower(input) in idx.words ==>
      r == [Suggestion(AzCase.ToLower(input), 0, idx.words[AzCase.ToLower(input)])]
    ensures input != "" && AzCase.ToLower(input) !in idx.words && |input| - Clamp(maxDist) > idx.maxWordLen ==> r == []
    ensures forall k :: 0 <= k < |r| ==> Found(idx, AzCase.ToLower(input), Clamp(maxDist), r[k])
    ensures AzCase.ToLower(input) !in idx.words ==> forall k :: 0 <= k < |r| ==> r[k].distance <= Clamp(maxDist)
    ensures input != "" && AzCase.ToLower(input) !in idx.words && |input| - Clamp(maxDist) <= idx.maxWordLen ==>
      forall w :: (exists k :: 0 <= k < |r| && r[k].term == w) <==>
      Stored(idx, Keys(Prefix(AzCase.ToLower(input)), Clamp(maxDist)), w) && Distance(AzCase.ToLower(input), w) <= Clamp(maxDist)
    ensures input != "" && Reachable(idx, AzCase.ToLower(input), Clamp(maxDist)) ==> r != []
    ensures Sorted(r) && DistinctTerms(r)
  {
    if input == "" {
      return [];
    }
    var md := maxDist;
    if md > MaxEditDistance {
      md := MaxEditDistance;
    }
    var lower := AzCase.ToLower(input);
    var inputLen := |lower|;
    if lower in idx.words {
      DistanceZeroIff(lower, lower);
      return [Suggestion(lower, 0, idx.words[lower])];
    }
    if inputLen - md > idx.maxWordLen {
      return [];
    }
    var prefix := TruncateToRunes(lower, PrefixLength);
    var dels := GenerateDeletes(prefix, md);
    dels := dels + [prefix];
    ghost var keys := Keys(prefix, md);
    var results, seen := Gather(idx, lower, md, dels, keys);
    var arr := new Suggestion[|results|](k requires 0 <= k < |results| => results[k]);
    assert arr[..] == results;
    SortSuggestions(arr);
    r := arr[..];
    GatheredPerm(idx, lower, md, results, seen, r);
    LookupExact(idx, lower, md, keys, dels, results, seen, r);
  }

  /** The candidate loop over the variants in dels: every word stored under them is seen, and nothing else. */
  method Gather(idx: Index, lower: string, md: int, dels: seq<string>, ghost keys: set<string>)
    returns (results: seq<Suggestion>, seen: set<string>)
    requires lower != [] && md <= MaxEditDistance && ValidIndex(idx)
    requires forall e :: 0 <= e < |dels| ==> dels[e] in keys
    ensures Gathered(idx, lower, md, results, seen) && AllKept(lower, md, results, seen)
    ensures Covered(idx, dels, |dels|, seen) && forall w :: w in seen ==> Stored(idx, keys, w)
  {
    results, seen := [], {};
    for d := 0 to |dels|
      invariant Gathered(idx, lower, md, results, seen) && AllKept(lower, md, results, seen)
      invariant Covered(idx, dels, d, seen)
      invariant forall w :: w in seen ==> Stored(idx, keys, w)
    {
      if dels[d] in idx.deletes {
        ghost var before := seen;
        results, seen := AddCandidates(idx, lower, md, idx.deletes[dels[d]], results, seen);
        forall w | w in seen ensures Stored(idx, keys, w) {
          if w !in before {
            assert dels[d] in keys && AtPositions(idx, idx.deletes[dels[d]], w);
          }
        }
      }
    }
  }

  /** Once every variant is covered, the sorted results hold exactly the stored words within md edits. */
  lemma LookupExact(idx: Index, lower: string, md: int, keys: set<string>, dels: seq<string>,
                    results: seq<Suggestion>, seen: set<string>, r: seq<Suggestion>)
    requires Gathered(idx, lower, md, results, seen) && AllKept(lower, md, results, seen)
    requires Covered(idx, dels, |dels|, seen) && forall w :: w in seen ==> Stored(idx, keys, w)
    requires forall key :: key in keys ==> key in dels
    requires multiset(results) == multiset(r)
    ensures forall w :: (exists k :: 0 <= k < |r| && r[k].term == w) <==> Stored(idx, keys, w) && Distance(lower, w) <= md
    ensures (exists w :: Stored(idx, keys, w) && Distance(lower, w) <= md) ==> r != []
  {
    forall w ensures (exists k :: 0 <= k < |r| && r[k].term == w) <==> Stored(idx, keys, w) && Distance(lower, w) <= md {
      if exists k :: 0 <= k < |r| && r[k].term == w {
        var k :| 0 <= k < |r| && r[k].term == w;
        assert r[k] in multiset(results);
        var j :| 0 <= j < |results| && results[j] == r[k];
      }
      if Stored(idx, keys, w) && Distance(lower, w) <= md {
        var key :| key in keys && key in idx.deletes && AtPositions(idx, idx.deletes[key], w);
        var e :| 0 <= e < |dels| && dels[e] == key;
        var n :| 0 <= n < |idx.deletes[key]| && idx.deletes[key][n] < |idx.wordList| && idx.wordList[idx.deletes[key][n]] == w;
        assert w in seen;
        var j :| 0 <= j < |results| && results[j].term == w;
        assert results[j] in multiset(r);
        var k :| 0 <= k < |r| && r[k] == results[j];
        assert r[k].term == w;
      }
    }
  }

  /** Sorting the gathered suggestions keeps what is known of each, and their distinct terms. */
  lemma GatheredPerm(idx: Index, lower: string, md: int, results: seq<Suggestion>, seen: set<string>, r: seq<Suggestion>)
    requires Gathered(idx, lower, md, results, seen) && multiset(results) == multiset(r)
    ensures forall k :: 0 <= k < |r| ==> Found(idx, lower, md, r[k]) && r[k].distance <= md
    ensures DistinctTerms(r)
  {
    DistinctPerm(results, r);
    forall k | 0 <= k < |r| ensures Found(idx, lower, md, r[k]) && r[k].distance <= md {
      assert r[k] in multiset(results);
    }
  }
}
