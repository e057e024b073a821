/**
 * TextRank's co-occurrence graph: one node per distinct stem, in order of
 * first occurrence, and an undirected edge between two different stems
 * weighted by how often they occur within a window of three positions.
 * Each node's edges are listed by ascending target. The PageRank iteration
 * over the graph is not part of this model: the scores it yields are a
 * parameter.
 */
module KeywordsTextRank {
  import Seqs
  import Sorting

  /** Stems at most this many positions apart, counting both ends, co-occur. */
  const WindowSize: nat := 3

  /** A keyword: the stem, its score and the number of times the stem occurs. */
  datatype Keyword = Keyword(stem: string, score: real, count: nat)

  /** A neighbour's node index and the weight of the edge to it. */
  datatype Edge = Edge(to: nat, weight: nat)

  // ---------- nodes ----------

  /** Where each stem sits among the nodes. */
  ghost predicate Indexes(nodes: seq<string>, index: map<string, nat>) {
    && (forall s :: s in index <==> s in nodes)
    && (forall s :: s in index ==> index[s] < |nodes| && nodes[index[s]] == s)
  }

  /** buildGraph, first loop: each new stem gets the next index and is appended to the nodes. */
  method CollectNodes(stems: seq<string>) returns (nodes: seq<string>, index: map<string, nat>)
    ensures nodes == Seqs.Dedup(stems) && Indexes(nodes, index)
  {
    nodes := [];
    index := map[];
    var i := 0;
    while i < |stems|
      invariant 0 <= i <= |stems|
      invariant nodes == Seqs.Dedup(stems[..i]) && Indexes(nodes, index)
    {
      var s := stems[i];
      assert stems[..i + 1][..i] == stems[..i];
      if s !in index {
        index := index[s := |nodes|];
        nodes := nodes + [s];
      }
      i := i + 1;
    }
    assert stems[..i] == stems;
  }

  // ---------- edge weights ----------

  /** Positions holding a and b add to the weight between x and y when a and b are x and y, either way round, and differ. */
  predicate Hit(a: string, b: string, x: string, y: string) {
    a != b && ((a == x && b == y) || (a == y && b == x))
  }

  /** One past the last position paired with position p. */
  function WinEnd(stems: seq<string>, p: nat): nat {
    if p + WindowSize < |stems| then p + WindowSize else |stems|
  }

  /** The pairs (p, q) with p < q < j that hit x and y. */
  function Row(stems: seq<string>, x: string, y: string, p: nat, j: nat): nat
    requires p < j <= |stems|
    decreases j - p
  {
    if j == p + 1 then 0
    else Row(stems, x, y, p, j - 1) + (if Hit(stems[p], stems[j - 1], x, y) then 1 else 0)
  }

  /** The hits from the windows starting before position i. */
  function Co(stems: seq<string>, x: string, y: string, i: nat): nat
    requires i <= |stems|
  {
    if i == 0 then 0
    else Co(stems, x, y, i - 1) + Row(stems, x, y, i - 1, WinEnd(stems, i - 1))
  }

  /** The weight of the edge between stems x and y. */
  function Weight(stems: seq<string>, x: string, y: string): nat {
    Co(stems, x, y, |stems|)
  }

  lemma {:induction false} RowSymmetric(stems: seq<string>, x: string, y: string, p: nat, j: nat)
    requires p < j <= |stems|
    ensures Row(stems, x, y, p, j) == Row(stems, y, x, p, j)
    decreases j - p
  {
    if j > p + 1 {
      RowSymmetric(stems, x, y, p, j - 1);
    }
  }

  lemma {:induction false} CoSymmetric(stems: seq<string>, x: string, y: string, i: nat)
    requires i <= |stems|
    ensures Co(stems, x, y, i) == Co(stems, y, x, i)
  {
    if i > 0 {
      CoSymmetric(stems, x, y, i - 1);
      RowSymmetric(stems, x, y, i - 1, WinEnd(stems, i - 1));
    }
  }

  /** Edges are undirected: the weight from x to y is the weight from y to x. */
  lemma WeightSymmetric(stems: seq<string>, x: string, y: string)
    ensures Weight(stems, x, y) == Weight(stems, y, x)
  {
    CoSymmetric(stems, x, y, |stems|);
  }

  /** Two positions within a window holding x and y, either way round, with x and y different. */
  predicate Near(stems: seq<string>, x: string, y: string, p: nat, q: nat) {
    p < q < |stems| && q < p + WindowSize && Hit(stems[p], stems[q], x, y)
  }

  lemma {:induction false} RowNear(stems: seq<string>, x: string, y: string, p: nat, j: nat)
    requires p < j <= |stems|
    ensures Row(stems, x, y, p, j) > 0 ==> exists q :: p < q < j && Hit(stems[p], stems[q], x, y)
    decreases j - p
  {
    if j > p + 1 {
      RowNear(stems, x, y, p, j - 1);
    }
  }

  lemma {:induction false} CoNear(stems: seq<string>, x: string, y: string, i: nat)
    requires i <= |stems|
    ensures Co(stems, x, y, i) > 0 ==> exists p: nat, q: nat :: p < i && Near(stems, x, y, p, q)
  {
    if i > 0 {
      CoNear(stems, x, y, i - 1);
      var p := i - 1;
      RowNear(stems, x, y, p, WinEnd(stems, p));
      if Row(stems, x, y, p, WinEnd(stems, p)) > 0 {
        var q :| p < q < WinEnd(stems, p) && Hit(stems[p], stems[q], x, y);
        assert Near(stems, x, y, p, q);
      }
    }
  }

  /**
   * An edge joins two different stems that occur within a window of three
   * positions of each other; a stem never has an edge to itself.
   */
  lemma WeightNear(stems: seq<string>, x: string, y: string)
    ensures Weight(stems, x, y) > 0 ==> x != y && exists p: nat, q: nat :: Near(stems, x, y, p, q)
  {
    CoNear(stems, x, y, |stems|);
    if Weight(stems, x, y) > 0 {
      var p: nat, q: nat :| p < |stems| && Near(stems, x, y, p, q);
      assert Hit(stems[p], stems[q], x, y);
    }
  }

  /** The weight a map holds for a key, 0 when absent. */
  function Get(m: map<nat, nat>, k: nat): nat {
    if k in m then m[k] else 0
  }

  /** 1 for the two directions of the edge between different nodes si and sj, else 0. */
  function Pair(si: nat, sj: nat, x: nat, y: nat): nat {
    if si != sj && ((x == si && y == sj) || (x == sj && y == si)) then 1 else 0
  }

  /** One more co-occurrence of node a with node b, in one direction. */
  function Bump(ms: seq<map<nat, nat>>, a: nat, b: nat): (r: seq<map<nat, nat>>)
    requires a < |ms|
    ensures |r| == |ms|
    ensures forall x, y :: 0 <= x < |ms| ==> Get(r[x], y) == Get(ms[x], y) + (if x == a && y == b then 1 else 0)
    ensures forall x, y :: 0 <= x < |ms| && y in r[x] ==> y in ms[x] || (x == a && y == b)
  {
    var w: nat := Get(ms[a], b) + 1;
    var m: map<nat, nat> := ms[a][b := w];
    ms[a := m]
  }

  /** The edge maps: node a's map holds each neighbour b with a positive count, and nothing else. */
  predicate EdgeMaps(ms: seq<map<nat, nat>>, n: nat) {
    |ms| == n && forall a, b :: 0 <= a < n && b in ms[a] ==> b < n && ms[a][b] > 0
  }

  /** The counts so far: every window before i, and the pairs (i, q) with q < j. */
  ghost predicate CountsUpTo(stems: seq<string>, nodes: seq<string>, ms: seq<map<nat, nat>>, i: nat, j: nat)
    requires i < j <= |stems| && |ms| == |nodes|
  {
    forall a, b :: 0 <= a < |nodes| && 0 <= b < |nodes| ==>
      Get(ms[a], b) == Co(stems, nodes[a], nodes[b], i) + Row(stems, nodes[a], nodes[b], i, j)
  }

  /** Pairing positions i and j, which hold nodes si and sj, adds to the weights of exactly the pairs (si, sj) and (sj, si). */
  lemma RowStep(stems: seq<string>, nodes: seq<string>, si: nat, sj: nat, i: nat, j: nat, a: nat, b: nat)
    requires Seqs.Distinct(nodes) && si < |nodes| && sj < |nodes| && a < |nodes| && b < |nodes|
    requires i < j < |stems| && stems[i] == nodes[si] && stems[j] == nodes[sj]
    ensures Row(stems, nodes[a], nodes[b], i, j + 1) == Row(stems, nodes[a], nodes[b], i, j) + Pair(si, sj, a, b)
  {
    assert Hit(stems[i], stems[j], nodes[a], nodes[b]) <==> Pair(si, sj, a, b) == 1;
  }

  /** Both directions of one co-occurrence of different nodes; nothing for a node with itself. */
  function BumpBoth(ms: seq<map<nat, nat>>, n: nat, si: nat, sj: nat): (r: seq<map<nat, nat>>)
    requires EdgeMaps(ms, n) && si < n && sj < n
    ensures EdgeMaps(r, n)
    ensures forall x, y :: 0 <= x < n ==> Get(r[x], y) == Get(ms[x], y) + Pair(si, sj, x, y)
  {
    if si == sj then ms else Bump(Bump(ms, si, sj), sj, si)
  }

  /** Counting the pair (i, j) moves the counts on by one position. */
  method CountPair(stems: seq<string>, nodes: seq<string>, index: map<string, nat>, ms: seq<map<nat, nat>>,
                   i: nat, j: nat) returns (r: seq<map<nat, nat>>)
    requires Indexes(nodes, index) && Seqs.Dedup(stems) == nodes
    requires i < j < |stems| && EdgeMaps(ms, |nodes|) && CountsUpTo(stems, nodes, ms, i, j)
    ensures EdgeMaps(r, |nodes|) && CountsUpTo(stems, nodes, r, i, j + 1)
  {
    assert stems[i] in nodes && stems[j] in nodes;
    var si := index[stems[i]];
    var sj := index[stems[j]];
    r := ms;
    if si != sj {
      r := Bump(Bump(ms, si, sj), sj, si);
    }
    assert r == BumpBoth(ms, |nodes|, si, sj);
    forall a, b | 0 <= a < |nodes| && 0 <= b < |nodes|
      ensures Get(r[a], b) == Co(stems, nodes[a], nodes[b], i) + Row(stems, nodes[a], nodes[b], i, j + 1)
    {
      RowStep(stems, nodes, si, sj, i, j, a, b);
    }
  }

  /** The inner loop of the second loop: the pairs (i, j) for the positions j in the window after i. */
  method CountWindow(stems: seq<string>, nodes: seq<string>, index: map<string, nat>, ms: seq<map<nat, nat>>, i: nat)
    returns (r: seq<map<nat, nat>>)
    requires nodes == Seqs.Dedup(stems) && Indexes(nodes, index) && i < |stems| && EdgeMaps(ms, |nodes|)
    requires forall a, b :: 0 <= a < |nodes| && 0 <= b < |nodes| ==> Get(ms[a], b) == Co(stems, nodes[a], nodes[b], i)
    ensures EdgeMaps(r, |nodes|)
    ensures forall a, b :: 0 <= a < |nodes| && 0 <= b < |nodes| ==> Get(r[a], b) == Co(stems, nodes[a], nodes[b], i + 1)
  {
    r := ms;
    var end := WinEnd(stems, i);
    var j := i + 1;
    while j < end
      invariant i + 1 <= j <= end && EdgeMaps(r, |nodes|)
      invariant CountsUpTo(stems, nodes, r, i, j)
    {
      r := CountPair(stems, nodes, index, r, i, j);
      j := j + 1;
    }
  }

  /** buildGraph, second loop: every pair of different stems within a window adds one to both directions. */
  method CountEdges(stems: seq<string>, nodes: seq<string>, index: map<string, nat>) returns (ms: seq<map<nat, nat>>)
    requires nodes == Seqs.Dedup(stems) && Indexes(nodes, index)
    ensures EdgeMaps(ms, |nodes|)
    ensures forall a, b :: 0 <= a < |nodes| && 0 <= b < |nodes| ==> Get(ms[a], b) == Weight(stems, nodes[a], nodes[b])
  {
    ms := seq(|nodes|, _ => map[]);
    var i := 0;
    while i < |stems|
      invariant 0 <= i <= |stems| && EdgeMaps(ms, |nodes|)
      invariant forall a, b :: 0 <= a < |nodes| && 0 <= b < |nodes| ==> Get(ms[a], b) == Co(stems, nodes[a], nodes[b], i)
    {
      ms := CountWindow(stems, nodes, index, ms, i);
      i := i + 1;
    }
  }

  // ---------- adjacency lists ----------

  predicate EdgeLess(a: Edge, b: Edge) {
    a.to < b.to
  }

  lemma EdgeLessPreorder()
    ensures Sorting.Preorder(EdgeLess)
  {
  }

  /** The edges a map describes: one per key, carrying the key's weight. */
  ghost predicate ListsMap(es: seq<Edge>, m: map<nat, nat>) {
    forall e :: e in es <==> e.to in m && e.weight == m[e.to]
  }

  /** buildGraph, third loop: one node's map as a list of edges, sorted by target. */
  method SortedEdges(m: map<nat, nat>) returns (es: seq<Edge>)
    ensures ListsMap(es, m) && |es| == |m.Keys|
    ensures Sorting.SortedBy(es, EdgeLess)
  {
    var list: seq<Edge> := [];
    var keys := m.Keys;
    while keys != {}
      invariant keys <= m.Keys
      invariant |list| + |keys| == |m.Keys|
      invariant forall e :: e in list <==> e.to in m.Keys - keys && e.weight == m[e.to]
      decreases |keys|
    {
      var to :| to in keys;
      list := list + [Edge(to, m[to])];
      keys := keys - {to};
    }
    var a := new Edge[|list|](k requires 0 <= k < |list| => list[k]);
    assert a[..] == list;
    EdgeLessPreorder();
    Sorting.SortBy(a, EdgeLess);
    es := a[..];
    forall e ensures e in es <==> e in list {
      Sorting.PermMember(es, list, e);
    }
  }

  /**
   * The graph of the stems: the nodes are the distinct stems in order of
   * first occurrence, and node a's list holds one edge to every node b
   * whose weight with a is positive, with that weight, by ascending b.
   */
  ghost predicate IsGraph(stems: seq<string>, nodes: seq<string>, edges: seq<seq<Edge>>) {
    && nodes == Seqs.Dedup(stems)
    && |edges| == |nodes|
    && forall a :: 0 <= a < |nodes| ==>
         && Sorting.SortedBy(edges[a], EdgeLess)
         && forall e :: e in edges[a] <==>
              e.to < |nodes| && Weight(stems, nodes[a], nodes[e.to]) > 0 && e.weight == Weight(stems, nodes[a], nodes[e.to])
  }

  lemma MapEdges(stems: seq<string>, nodes: seq<string>, ms: seq<map<nat, nat>>, a: nat, es: seq<Edge>)
    requires EdgeMaps(ms, |nodes|) && a < |nodes|
    requires forall b :: 0 <= b < |nodes| ==> Get(ms[a], b) == Weight(stems, nodes[a], nodes[b])
    requires ListsMap(es, ms[a])
    ensures forall e :: e in es <==>
      e.to < |nodes| && Weight(stems, nodes[a], nodes[e.to]) > 0 && e.weight == Weight(stems, nodes[a], nodes[e.to])
  {
    forall e ensures e in es <==>
      e.to < |nodes| && Weight(stems, nodes[a], nodes[e.to]) > 0 && e.weight == Weight(stems, nodes[a], nodes[e.to])
    {
      if e.to < |nodes| {
        assert Get(ms[a], e.to) == Weight(stems, nodes[a], nodes[e.to]);
      }
    }
  }

  /** buildGraph: the nodes with their index, and the sorted edge lists. */
  method BuildGraph(stems: seq<string>) returns (nodes: seq<string>, index: map<string, nat>, edges: seq<seq<Edge>>)
    ensures IsGraph(stems, nodes, edges) && Indexes(nodes, index)
  {
    nodes, index := CollectNodes(stems);
    var ms := CountEdges(stems, nodes, index);
    edges := [];
    var a := 0;
    while a < |nodes|
      invariant 0 <= a <= |nodes| && |edges| == a
      invariant forall k :: 0 <= k < a ==>
         && Sorting.SortedBy(edges[k], EdgeLess)
         && forall e :: e in edges[k] <==>
              e.to < |nodes| && Weight(stems, nodes[k], nodes[e.to]) > 0 && e.weight == Weight(stems, nodes[k], nodes[e.to])
    {
      var es := SortedEdges(ms[a]);
      MapEdges(stems, nodes, ms, a, es);
      edges := edges + [es];
      a := a + 1;
    }
  }

  // ---------- scoring ----------

  /** The count a frequency map holds for a stem, 0 when absent. */
  function Freq(m: map<string, nat>, s: string): nat {
    if s in m then m[s] else 0
  }

  /**
   * scoreTextRank: one keyword per node, in node order, with the score the
   * ranking gives that node and the number of times its stem occurs.
   */
  method ScoreTextRank(stems: seq<string>, rank: (seq<string>, seq<seq<Edge>>) -> seq<real>)
    returns (r: seq<Keyword>, ghost edges: seq<seq<Edge>>)
    requires forall ns, es :: |rank(ns, es)| == |ns|
    ensures IsGraph(stems, Seqs.Dedup(stems), edges)
    ensures |r| == |Seqs.Dedup(stems)|
    ensures forall i :: 0 <= i < |r| ==>
      && r[i].stem == Seqs.Dedup(stems)[i]
      && r[i].score == rank(Seqs.Dedup(stems), edges)[i]
      && r[i].count == multiset(stems)[r[i].stem]
  {
    var nodes, _, es := BuildGraph(stems);
    edges := es;
    var scores := rank(nodes, es);
    var freq: map<string, nat> := map[];
    var i := 0;
    while i < |stems|
      invariant 0 <= i <= |stems|
      invariant forall s :: Freq(freq, s) == multiset(stems[..i])[s]
    {
      assert stems[..i + 1] == stems[..i] + [stems[i]];
      freq := freq[stems[i] := Freq(freq, stems[i]) + 1];
      i := i + 1;
    }
    assert stems[..i] == stems;
    r := [];
    var k := 0;
    while k < |nodes|
      invariant 0 <= k <= |nodes| && |r| == k
      invariant forall j :: 0 <= j < k ==>
        r[j].stem == nodes[j] && r[j].score == scores[j] && r[j].count == multiset(stems)[nodes[j]]
    {
      r := r + [Keyword(nodes[k], scores[k], Freq(freq, nodes[k]))];
      k := k + 1;
    }
  }
}
