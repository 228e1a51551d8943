/** havel_hakimi as the loops it is written with: the entries are built one
    by one, and the main loop rebinds and updates its two lists and the
    adjacency map in place until one of its exits is taken. The method is
    proved to compute `Realization.Realize`, whose contract states the
    realizer's soundness. */
module HavelHakimi {
  import opened Graph
  import opened Entries
  import opened Sorting
  import opened Realizer
  import opened Soundness
  import opened Realization

  /** The entries loop: node i paired with its requested degree. */
  method MakeEntries(degrees: seq<int>) returns (degSeq: seq<Entry>)
    ensures degSeq == InitialEntries(degrees)
    ensures |degSeq| == |degrees| && forall i | 0 <= i < |degrees| :: degSeq[i] == Entry(i, degrees[i])
  {
    degSeq := [];
    var nodeId: nat := 0;
    while nodeId < |degrees|
      invariant nodeId <= |degrees|
      invariant degSeq == InitialEntries(degrees)[..nodeId]
    {
      degSeq := degSeq + [Entry(nodeId, degrees[nodeId])];
      nodeId := nodeId + 1;
    }
  }

  /** The inner loop: connect `curNode` to each of the first curNode.rem
      entries of `degSeq`, lowering that entry in both lists, and stop with
      NegativeDegree as soon as one drops below zero. */
  method Connect(curNode: Entry, degSeq: seq<Entry>, nodeOrder: seq<Entry>, adjList: Adjacency) returns (r: Result<Views>)
    requires curNode.rem <= |degSeq| && multiset(degSeq) == multiset(nodeOrder)
    ensures r == ConnectFrom(curNode, degSeq, nodeOrder, adjList, 0)
  {
    var degSeq, nodeOrder, adjList := degSeq, nodeOrder, adjList;
    ghost var connected := ConnectFrom(curNode, degSeq, nodeOrder, adjList, 0);
    ghost var left := |degSeq|;
    var i: nat := 0;
    while i < curNode.rem
      invariant |degSeq| == left
      invariant multiset(degSeq) == multiset(nodeOrder)
      invariant ConnectFrom(curNode, degSeq, nodeOrder, adjList, i) == connected
      decreases curNode.rem - i
    {
      var addNode := degSeq[i];
      assert addNode in multiset(nodeOrder);
      var lowered := Entry(addNode.id, addNode.rem - 1);
      LowerBoth(degSeq, nodeOrder, i, lowered);
      adjList := AddEdge(adjList, curNode.id, addNode.id);
      adjList := AddEdge(adjList, addNode.id, curNode.id);
      degSeq := degSeq[i := lowered];
      nodeOrder := nodeOrder[IndexOf(nodeOrder, addNode) := lowered];
      if degSeq[i].rem < 0 {
        return Err(NegativeDegree);
      }
      i := i + 1;
    }
    return Ok(Views(degSeq, nodeOrder, adjList));
  }

  /** The rest of an iteration on the freshly sorted lists: return the
      graph when every remaining degree is zero, otherwise pop the head of
      `nodeOrder`, remove it from `degSeq`, check there are enough partners
      and run the inner loop. */
  method TakeNext(degSeq: seq<Entry>, nodeOrder: seq<Entry>, adjList: Adjacency) returns (o: Outcome)
    requires multiset(degSeq) == multiset(nodeOrder)
    ensures o == Step(degSeq, nodeOrder, adjList)
  {
    if |degSeq| == 0 {
      return Stop(EmptyDegSeq);
    }
    if Exhausted(degSeq) {
      return Done(adjList);
    }
    PopFacts(degSeq, nodeOrder);
    var curNode := nodeOrder[0];
    var nodeOrder' := nodeOrder[1..];
    var degSeq' := Remove(degSeq, curNode);
    if curNode.rem > |degSeq'| {
      return Stop(NotEnoughNodes);
    }
    StepConnects(degSeq, nodeOrder, adjList);
    var connected := Connect(curNode, degSeq', nodeOrder', adjList);
    match connected
    case Err(e) =>
      return Stop(e);
    case Ok(v) =>
      return Continue(v);
  }

  /** One iteration of the main loop: re-sort `degSeq` by descending
      remaining degree, rebind `nodeOrder` as the order argument says, and
      go on with the sorted lists. */
  method Iteration(degSeq: seq<Entry>, nodeOrder: seq<Entry>, adjList: Adjacency, order: int) returns (o: Outcome)
    requires multiset(degSeq) == multiset(nodeOrder)
    ensures o == Step(Sort(degSeq, true), Arrange(nodeOrder, ModeOf(order)), adjList)
  {
    var sorted := Sort(degSeq, true);
    var arranged := nodeOrder;
    if order == 0 {
      arranged := Sort(nodeOrder, false);
    } else if order == 1 {
      arranged := Sort(nodeOrder, true);
    }
    assert arranged == Arrange(nodeOrder, ModeOf(order));
    o := TakeNext(sorted, arranged, adjList);
  }

  /** The realizer. `perm` stands for the shuffle and is only read when the
      order argument is neither 0 nor 1. A returned map is a simple
      undirected graph on 0..n-1 in which node v has degrees[v] neighbours
      (none for a negative requested degree), and its keys are the nodes of
      positive requested degree. The empty-list lookup failure happens on
      an empty input and, for a non-empty input, only when some requested
      degree is negative. */
  method HavelHakimi(degrees: seq<int>, order: int, perm: seq<nat>) returns (r: Result<Adjacency>)
    requires ModeOf(order) == Shuffled ==> IsPermutation(perm, |degrees|)
    ensures r == Realize(degrees, order, perm)
    ensures r.Ok? ==> IsRealization(r.value, degrees)
    ensures r.Ok? ==> forall v: nat :: v in r.value <==> v < |degrees| && degrees[v] > 0
    ensures r == Err(EmptyDegSeq) ==> |degrees| == 0 || !NonNegative(degrees)
    ensures |degrees| == 0 ==> r == Err(EmptyDegSeq)
  {
    ghost var result := Realize(degrees, order, perm);
    ghost var mode := ModeOf(order);

    var adjList: Adjacency := map[];
    var degSeq := MakeEntries(degrees);
    var nodeOrder := degSeq;
    if order > 1 || order < 0 {
      nodeOrder := Shuffle(nodeOrder, perm);
    }
    assert nodeOrder == if mode == Shuffled then Shuffle(InitialEntries(degrees), perm) else InitialEntries(degrees);

    while true
      invariant multiset(degSeq) == multiset(nodeOrder)
      invariant Reduce(degSeq, nodeOrder, adjList, mode) == result
      decreases |degSeq|
    {
      var outcome := Iteration(degSeq, nodeOrder, adjList, order);
      match outcome
      case Done(a) =>
        return Ok(a);
      case Stop(e) =>
        return Err(e);
      case Continue(v) =>
        degSeq, nodeOrder, adjList := v.degSeq, v.nodeOrder, v.adj;
    }
  }
}
