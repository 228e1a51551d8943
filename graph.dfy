/** Adjacency maps as the realizer builds them: a node id maps to the set of
    its neighbours' ids. An undirected edge u-v is stored in both directions. */
module Graph {

  type Adjacency = map<nat, set<nat>>

  /** The neighbours of `u`; a node that is not a key has none. */
  function Nbrs(adj: Adjacency, u: nat): set<nat>
  {
    if u in adj then adj[u] else {}
  }

  /** The number of neighbours of `u`. */
  function Degree(adj: Adjacency, u: nat): nat
  {
    |Nbrs(adj, u)|
  }

  /** addEdge: records the one-directional entry a -> b, creating the set of
      `a` when `a` is not yet a key. Every other key keeps its set. */
  function AddEdge(adj: Adjacency, a: nat, b: nat): (r: Adjacency)
    ensures r.Keys == adj.Keys + {a}
    ensures b in r[a] && (a !in adj ==> r[a] == {b})
    ensures forall u | u in adj && u != a :: r[u] == adj[u]
    ensures forall u :: Nbrs(r, u) == if u == a then Nbrs(adj, u) + {b} else Nbrs(adj, u)
  {
    if a in adj then adj[a := adj[a] + {b}] else adj[a := {b}]
  }

  /** Every key of `adj` is a key of `adj'`, with at least its neighbours:
      `adj'` is `adj` with edges added. */
  ghost predicate Grows(adj: Adjacency, adj': Adjacency)
  {
    forall u | u in adj :: u in adj' && adj[u] <= adj'[u]
  }

  /** v is a neighbour of u exactly when u is a neighbour of v. */
  ghost predicate Symmetric(adj: Adjacency)
  {
    forall u: nat, v: nat :: v in Nbrs(adj, u) <==> u in Nbrs(adj, v)
  }

  ghost predicate LoopFree(adj: Adjacency)
  {
    forall u: nat :: u !in Nbrs(adj, u)
  }

  /** Keys are only created when a neighbour is inserted. */
  ghost predicate NoEmptySets(adj: Adjacency)
  {
    forall u | u in adj :: adj[u] != {}
  }

  /** Every key and every neighbour is one of the ids 0..n-1. */
  ghost predicate WithinRange(adj: Adjacency, n: nat)
  {
    forall u | u in adj :: u < n && forall v | v in adj[u] :: v < n
  }

  /** A simple undirected graph on the nodes 0..n-1. */
  ghost predicate WellFormed(adj: Adjacency, n: nat)
  {
    Symmetric(adj) && LoopFree(adj) && NoEmptySets(adj) && WithinRange(adj, n)
  }
}
