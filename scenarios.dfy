/** The realizer and the edge-list writer on concrete inputs: small
    degree sequences, one for each way a run ends. All but the empty input
    use order 1 (largest first), where both lists are sorted the same way;
    the empty input uses order 0. */
module Scenarios {
  import opened Graph
  import opened Entries
  import opened Sorting
  import opened Realizer
  import opened EdgeList
  import opened Realization

  /** With order 1 the run starts from the fresh entries in both lists. */
  lemma RealizeLargestFirst(degrees: seq<int>)
    ensures Realize(degrees, 1, []) == Reduce(InitialEntries(degrees), InitialEntries(degrees), map[], LargestFirst)
  {
  }

  /** An iteration that starts from two copies of an already sorted list
      sorts nothing. */
  lemma ReduceSorted(ds: seq<Entry>, adj: Adjacency)
    requires Ordered(ds, true)
    ensures Reduce(ds, ds, adj, LargestFirst) ==
            match Step(ds, ds, adj)
            case Done(a) => Ok(a)
            case Stop(e) => Err(e)
            case Continue(v) => Reduce(v.degSeq, v.nodeOrder, v.adj, LargestFirst)
  {
    SortOrdered(ds, true);
  }

  /** [1, 1] gives the single edge 0-1 ... */
  lemma SingleEdge(degrees: seq<int>)
    requires degrees == [1, 1]
    ensures Realize(degrees, 1, []) == Ok(map[0 := {1}, 1 := {0}])
  {
    var es := [Entry(0, 1), Entry(1, 1)];
    var last := [Entry(1, 0)];
    var g := map[0 := {1}, 1 := {0}];
    RealizeLargestFirst(degrees);
    SingleEdgeEntries(degrees);
    ReduceSorted(es, map[]);
    SingleEdgeFirstStep();
    ReduceSorted(last, g);
    SingleEdgeLastStep();
  }

  lemma SingleEdgeEntries(degrees: seq<int>)
    requires degrees == [1, 1]
    ensures InitialEntries(degrees) == [Entry(0, 1), Entry(1, 1)]
    ensures Ordered([Entry(0, 1), Entry(1, 1)], true) && Ordered([Entry(1, 0)], true)
  {
  }

  lemma SingleEdgeLastStep()
    ensures Step([Entry(1, 0)], [Entry(1, 0)], map[0 := {1}, 1 := {0}]) == Done(map[0 := {1}, 1 := {0}])
  {
  }

  lemma SingleEdgeFirstStep()
    ensures Step([Entry(0, 1), Entry(1, 1)], [Entry(0, 1), Entry(1, 1)], map[])
         == Continue(Views([Entry(1, 0)], [Entry(1, 0)], map[0 := {1}, 1 := {0}]))
  {
    var es := [Entry(0, 1), Entry(1, 1)];
    assert IndexOf(es, es[0]) == 0;
    assert Remove(es, es[0]) == [Entry(1, 1)];
    SingleEdgeConnection();
  }

  /** The one pass of the inner loop in the run on [1, 1]. */
  lemma SingleEdgeConnection()
    ensures ConnectFrom(Entry(0, 1), [Entry(1, 1)], [Entry(1, 1)], map[], 0)
         == Ok(Views([Entry(1, 0)], [Entry(1, 0)], map[0 := {1}, 1 := {0}]))
  {
    var rest := [Entry(1, 1)];
    assert AddEdge(AddEdge(map[], 0, 1), 1, 0) == map[0 := {1}, 1 := {0}];
    assert IndexOf(rest, rest[0]) == 0;
    assert rest[0 := Entry(1, 0)] == [Entry(1, 0)];
  }

  /** ... which writeGraph writes as the one line "0 1". */
  lemma SingleEdgeLine()
    ensures EmittedPairs(map[0 := {1}, 1 := {0}]) == {(0, 1)}
  {
    var adj := map[0 := {1}, 1 := {0}];
    forall p | p in EmittedPairs(adj) ensures p == (0, 1) {
      EmittedIff(adj, p.0, p.1);
    }
    EmittedIff(adj, 0, 1);
  }

  /** Node 0 asks for 5 partners, but only 4 other nodes exist. */
  lemma TooFewNodes(degrees: seq<int>)
    requires degrees == [5, 1, 1, 1, 1]
    ensures Realize(degrees, 1, []) == Err(NotEnoughNodes)
  {
    var es := [Entry(0, 5), Entry(1, 1), Entry(2, 1), Entry(3, 1), Entry(4, 1)];
    RealizeLargestFirst(degrees);
    TooFewNodesEntries(degrees);
    TooFewNodesOrdered();
    ReduceSorted(es, map[]);
    TooFewNodesStep();
  }

  lemma TooFewNodesEntries(degrees: seq<int>)
    requires degrees == [5, 1, 1, 1, 1]
    ensures InitialEntries(degrees) == [Entry(0, 5), Entry(1, 1), Entry(2, 1), Entry(3, 1), Entry(4, 1)]
  {
  }

  lemma TooFewNodesOrdered()
    ensures Ordered([Entry(0, 5), Entry(1, 1), Entry(2, 1), Entry(3, 1), Entry(4, 1)], true)
  {
    var es := [Entry(0, 5), Entry(1, 1), Entry(2, 1), Entry(3, 1), Entry(4, 1)];
    forall i, j | 0 <= i < j < |es| ensures Key(es[i], true) <= Key(es[j], true) {
      assert es[j].rem == 1;
    }
  }

  lemma TooFewNodesStep()
    ensures Step([Entry(0, 5), Entry(1, 1), Entry(2, 1), Entry(3, 1), Entry(4, 1)],
                 [Entry(0, 5), Entry(1, 1), Entry(2, 1), Entry(3, 1), Entry(4, 1)], map[])
         == Stop(NotEnoughNodes)
  {
    var es := [Entry(0, 5), Entry(1, 1), Entry(2, 1), Entry(3, 1), Entry(4, 1)];
    assert !Exhausted(es);
    assert |Remove(es, es[0])| == 4;
  }

  /** Node 0 takes node 1 as its partner, and node 1's degree drops to -1. */
  lemma DegreeGoesNegative(degrees: seq<int>)
    requires degrees == [1, 0]
    ensures Realize(degrees, 1, []) == Err(NegativeDegree)
  {
    var es := [Entry(0, 1), Entry(1, 0)];
    RealizeLargestFirst(degrees);
    DegreeGoesNegativeEntries(degrees);
    ReduceSorted(es, map[]);
    DegreeGoesNegativeStep();
  }

  lemma DegreeGoesNegativeEntries(degrees: seq<int>)
    requires degrees == [1, 0]
    ensures InitialEntries(degrees) == [Entry(0, 1), Entry(1, 0)]
    ensures Ordered([Entry(0, 1), Entry(1, 0)], true)
  {
  }

  lemma DegreeGoesNegativeStep()
    ensures Step([Entry(0, 1), Entry(1, 0)], [Entry(0, 1), Entry(1, 0)], map[]) == Stop(NegativeDegree)
  {
    var es := [Entry(0, 1), Entry(1, 0)];
    assert IndexOf(es, es[0]) == 0;
    assert Remove(es, es[0]) == [Entry(1, 0)];
  }

  /** The empty sequence fails on the lookup of its first entry. */
  lemma EmptySequence(degrees: seq<int>)
    requires degrees == []
    ensures Realize(degrees, 0, []) == Err(EmptyDegSeq)
  {
    assert InitialEntries(degrees) == [];
    assert Step([], [], map[]) == Stop(EmptyDegSeq);
  }
}
