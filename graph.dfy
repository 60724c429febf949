/** Adjacency maps over node names, as the cycle detector receives them, and walks in them. */
module Graphs {

  /** Each node's successors, in list order; the cycle detector's `HashMap<String, Vec<String>>`
      is `Graph`, the enumerator works on any node type. */
  type Adjacency<N> = map<N, seq<N>>

  type Graph = Adjacency<string>

  /** A node with no entry has no successors. */
  function Succ<N>(g: Adjacency<N>, n: N): seq<N>
  {
    if n in g then g[n] else []
  }

  predicate Edge<N>(g: Adjacency<N>, a: N, b: N)
  {
    b in Succ(g, a)
  }

  /** Every node the map mentions, as a key or as a successor. */
  ghost function Nodes<N>(g: Adjacency<N>): set<N>
  {
    g.Keys + set k, x | k in g && x in g[k] :: x
  }

  lemma SuccInNodes<N>(g: Adjacency<N>, n: N, m: N)
    requires m in Succ(g, n)
    ensures n in g && m in Nodes(g)
  {
  }

  /** Consecutive elements are joined by edges. */
  predicate IsWalk<N>(g: Adjacency<N>, w: seq<N>)
  {
    forall i :: 0 <= i < |w| - 1 ==> Edge(g, w[i], w[i + 1])
  }

  /** A walk of at least one edge that ends where it starts. */
  predicate IsClosedWalk<N>(g: Adjacency<N>, w: seq<N>)
  {
    |w| >= 2 && w[0] == w[|w| - 1] && IsWalk(g, w)
  }

  ghost predicate Acyclic<N(!new)>(g: Adjacency<N>)
  {
    forall w :: !IsClosedWalk(g, w)
  }

  predicate NoDup<N(==)>(s: seq<N>)
  {
    forall i, j :: 0 <= i < j < |s| ==> s[i] != s[j]
  }

  /** Along a walk of at least one edge, a rank that every edge lowers ends lower
      than it starts. */
  lemma {:induction false} RankDecreasesAlongWalk<N>(g: Adjacency<N>, rank: N -> nat, w: seq<N>)
    requires forall a, b :: Edge(g, a, b) ==> rank(b) < rank(a)
    requires |w| >= 2 && IsWalk(g, w)
    ensures rank(w[|w| - 1]) < rank(w[0])
    decreases |w|
  {
    assert Edge(g, w[0], w[1]);
    if |w| > 2 {
      RankDecreasesAlongWalk(g, rank, w[1..]);
    }
  }

  /** A graph whose edges all lower some rank (a layering) has no closed walk. */
  lemma RankedIsAcyclic<N(!new)>(g: Adjacency<N>, rank: N -> nat)
    requires forall a, b :: Edge(g, a, b) ==> rank(b) < rank(a)
    ensures Acyclic(g)
  {
    forall w | IsClosedWalk(g, w) ensures false {
      RankDecreasesAlongWalk(g, rank, w);
    }
  }

  /** `nodes` holds every key of the map and every successor listed. */
  ghost predicate Covers<N>(g: Adjacency<N>, nodes: set<N>)
  {
    g.Keys <= nodes && forall a, b :: a in g && b in g[a] ==> b in nodes
  }

  lemma NodesCover<N>(g: Adjacency<N>)
    ensures Covers(g, Nodes(g))
  {
    forall a, b | a in g && b in g[a] ensures b in Nodes(g) {
      SuccInNodes(g, a, b);
    }
  }

  /** A node listed among its own successors makes a graph cyclic. */
  lemma SelfLoopIsCycle<N(!new)>(g: Adjacency<N>, n: N)
    requires Edge(g, n, n)
    ensures IsClosedWalk(g, [n, n]) && !Acyclic(g)
  {
  }

  /** Marking one more node of a set leaves fewer of its nodes unmarked. */
  lemma FewerUnvisited<N>(nodes: set<N>, before: set<N>, after: set<N>, x: N)
    requires before + {x} <= after && x in nodes && x !in before
    ensures |nodes - after| < |nodes - before|
  {
    var gone := (nodes - before) - (nodes - after);
    assert x in gone;
    assert nodes - before == (nodes - after) + gone;
    assert (nodes - after) * gone == {};
  }

  /** Marking more nodes never leaves more of them unmarked. */
  lemma NoMoreUnvisited<N>(nodes: set<N>, before: set<N>, after: set<N>)
    requires before <= after
    ensures |nodes - after| <= |nodes - before|
  {
    var gone := (nodes - before) - (nodes - after);
    assert nodes - before == (nodes - after) + gone;
    assert (nodes - after) * gone == {};
  }
}
