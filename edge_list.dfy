/** The edge list writeGraph prints: for every key and every neighbour of
    it, the pair (key, neighbour) is written when the neighbour's id is the
    larger one. The order the pairs come out in follows the dict and set
    iteration order and is not modelled; the pairs are a set. */
module EdgeList {
  import opened Graph
  import opened Realizer
  import opened Soundness
  import opened Realization

  type Edge = (nat, nat)

  /** The pairs writeGraph emits. */
  function EmittedPairs(adj: Adjacency): (r: set<Edge>)
    ensures forall p | p in r :: p.0 < p.1
  {
    set u, v | u in adj && v in adj[u] && v > u :: (u, v)
  }

  /** Every directed entry u -> v of the map. */
  ghost function Arcs(adj: Adjacency): set<Edge>
  {
    set u, v | u in adj && v in adj[u] :: (u, v)
  }

  /** The sizes of the neighbour sets of nodes 0..n-1, added up. */
  function DegreeSum(adj: Adjacency, n: nat): nat
  {
    if n == 0 then 0 else DegreeSum(adj, n - 1) + Degree(adj, n - 1)
  }

  /** max(d, 0) over the requested degrees 0..n-1, added up. */
  function RequestedSum(deg: seq<int>, n: nat): nat
    requires n <= |deg|
  {
    if n == 0 then 0 else RequestedSum(deg, n - 1) + Max0(deg[n - 1])
  }

  /** A pair is emitted exactly when it is an entry of the map whose second
      id is the larger. */
  lemma EmittedIff(adj: Adjacency, u: nat, v: nat)
    ensures (u, v) in EmittedPairs(adj) <==> v in Nbrs(adj, u) && u < v
  {
    if v in Nbrs(adj, u) && u < v {
      assert u in adj && v in adj[u];
    }
  }

  /** On a symmetric map without self-loops, each undirected edge comes out
      exactly once, in one of its two orientations, and nothing else does. */
  lemma EachEdgeOnce(adj: Adjacency, u: nat, v: nat)
    requires Symmetric(adj) && LoopFree(adj)
    ensures v in Nbrs(adj, u) ==> ((u, v) in EmittedPairs(adj) <==> (v, u) !in EmittedPairs(adj))
    ensures v !in Nbrs(adj, u) ==> (u, v) !in EmittedPairs(adj) && (v, u) !in EmittedPairs(adj)
  {
    EmittedIff(adj, u, v);
    EmittedIff(adj, v, u);
  }

  // ---------------------------------------------------------------------
  // Counting
  // ---------------------------------------------------------------------

  /** The pairs (u, v) for v in `s`. */
  ghost function Row(u: nat, s: set<nat>): set<Edge>
  {
    set v | v in s :: (u, v)
  }

  lemma {:induction false} RowCard(u: nat, s: set<nat>)
    ensures |Row(u, s)| == |s|
    decreases |s|
  {
    if s != {} {
      var x :| x in s;
      RowCard(u, s - {x});
      assert Row(u, s) == Row(u, s - {x}) + {(u, x)};
    }
  }

  /** The entries of the map whose key is below k. */
  ghost function ArcsBelow(adj: Adjacency, k: nat): set<Edge>
  {
    set u, v | u in adj && u < k && v in adj[u] :: (u, v)
  }

  lemma ArcsBelowStep(adj: Adjacency, k: nat)
    ensures ArcsBelow(adj, k + 1) == ArcsBelow(adj, k) + Row(k, Nbrs(adj, k))
    ensures ArcsBelow(adj, k) !! Row(k, Nbrs(adj, k))
  {
    forall p | p in ArcsBelow(adj, k + 1) ensures p in ArcsBelow(adj, k) + Row(k, Nbrs(adj, k)) {
      if p.0 == k {
        assert p.1 in Nbrs(adj, k);
      }
    }
    forall p | p in Row(k, Nbrs(adj, k)) ensures p in ArcsBelow(adj, k + 1) {
      assert k in adj && p.1 in adj[k];
    }
  }

  lemma {:induction false} ArcsBelowCard(adj: Adjacency, k: nat)
    ensures |ArcsBelow(adj, k)| == DegreeSum(adj, k)
  {
    if k > 0 {
      ArcsBelowCard(adj, k - 1);
      RowCard(k - 1, Nbrs(adj, k - 1));
      ArcsBelowStep(adj, k - 1);
    }
  }

  /** The pairs of `e`, each turned around. */
  ghost function Swapped(e: set<Edge>): set<Edge>
  {
    set p | p in e :: (p.1, p.0)
  }

  lemma {:induction false} SwappedCard(e: set<Edge>)
    ensures |Swapped(e)| == |e|
    decreases |e|
  {
    if e != {} {
      var x :| x in e;
      SwappedCard(e - {x});
      assert Swapped(e) == Swapped(e - {x}) + {(x.1, x.0)};
    }
  }

  /** On a symmetric map without self-loops, the entries are the emitted
      pairs together with the same pairs turned around. */
  lemma ArcsSplit(adj: Adjacency)
    requires Symmetric(adj) && LoopFree(adj)
    ensures Arcs(adj) == EmittedPairs(adj) + Swapped(EmittedPairs(adj))
    ensures EmittedPairs(adj) !! Swapped(EmittedPairs(adj))
  {
    var e := EmittedPairs(adj);
    forall p | p in Arcs(adj) ensures p in e + Swapped(e) {
      assert p.1 in Nbrs(adj, p.0) && p.0 in Nbrs(adj, p.1);
      EmittedIff(adj, p.0, p.1);
      EmittedIff(adj, p.1, p.0);
      if p.0 > p.1 {
        assert (p.1, p.0) in e;
      }
    }
    forall p | p in Swapped(e) ensures p in Arcs(adj) {
      var q :| q in e && p == (q.1, q.0);
      EmittedIff(adj, q.0, q.1);
      assert q.0 in Nbrs(adj, q.1);
    }
  }

  /** writeGraph's line count: on a simple graph whose ids are below n,
      twice the number of emitted pairs is the sum of the neighbour-set
      sizes. */
  lemma EdgeCount(adj: Adjacency, n: nat)
    requires Symmetric(adj) && LoopFree(adj) && WithinRange(adj, n)
    ensures 2 * |EmittedPairs(adj)| == DegreeSum(adj, n)
  {
    ArcsSplit(adj);
    SwappedCard(EmittedPairs(adj));
    ArcsBelowCard(adj, n);
    assert ArcsBelow(adj, n) == Arcs(adj);
  }

  /** When the realizer succeeds with degrees d, the edge list has
      (max(d[0], 0) + ... + max(d[n-1], 0)) / 2 lines. */
  lemma {:induction false} RealizedEdgeCount(degrees: seq<int>, order: int, perm: seq<nat>)
    requires ModeOf(order) == Shuffled ==> IsPermutation(perm, |degrees|)
    requires Realize(degrees, order, perm).Ok?
    ensures 2 * |EmittedPairs(Realize(degrees, order, perm).value)| == RequestedSum(degrees, |degrees|)
  {
    var adj := Realize(degrees, order, perm).value;
    EdgeCount(adj, |degrees|);
    SumsAgree(adj, degrees, |degrees|);
  }

  lemma {:induction false} SumsAgree(adj: Adjacency, deg: seq<int>, k: nat)
    requires k <= |deg| && forall v: nat | v < k :: Degree(adj, v) == Max0(deg[v])
    ensures DegreeSum(adj, k) == RequestedSum(deg, k)
  {
    if k > 0 {
      SumsAgree(adj, deg, k - 1);
    }
  }
}
