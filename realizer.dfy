/** The Havel-Hakimi reduction as functions: one call of `Reduce` is one
    iteration of the realizer's main loop, one call of `ConnectFrom` one step
    of its inner loop. */
module Realizer {
  import opened Graph
  import opened Entries
  import opened Sorting

  /** The three ways a run can stop without a graph: the empty `degSeq`
      that `degSeq[0]` cannot index, too few nodes left for the current
      node, and a remaining degree driven below zero. */
  datatype Error = EmptyDegSeq | NotEnoughNodes | NegativeDegree

  datatype Result<T> = Ok(value: T) | Err(error: Error)

  /** The order in which nodes are taken from `nodeOrder`. */
  datatype OrderMode = SmallestFirst | LargestFirst | Shuffled

  /** The realizer's state: the two views of the entries and the graph. */
  datatype Views = Views(degSeq: seq<Entry>, nodeOrder: seq<Entry>, adj: Adjacency)

  /** The order argument: 0 and 1 are re-sorted every iteration; every
      other value (above 1 or below 0) shuffles once. */
  function ModeOf(order: int): (m: OrderMode)
    ensures m == SmallestFirst <==> order == 0
    ensures m == LargestFirst <==> order == 1
    ensures m == Shuffled <==> order > 1 || order < 0
  {
    if order == 0 then SmallestFirst
    else if order == 1 then LargestFirst
    else Shuffled
  }

  /** The entries made from the input: node i with degree degrees[i]. */
  function InitialEntries(degrees: seq<int>): (r: seq<Entry>)
    ensures |r| == |degrees| && UniqueIds(r)
    ensures forall k | 0 <= k < |r| :: r[k].id == k && r[k].rem == degrees[k]
    ensures forall v: nat :: v in IdSet(r) <==> v < |degrees|
  {
    var r := seq(|degrees|, i requires 0 <= i < |degrees| => Entry(i, degrees[i]));
    NumberedIds(r);
    r
  }

  /** Entries numbered by their positions carry exactly the ids 0..n-1. */
  lemma NumberedIds(s: seq<Entry>)
    requires forall k | 0 <= k < |s| :: s[k].id == k
    ensures forall v: nat :: v in IdSet(s) <==> v < |s|
  {
    forall v: nat | v < |s| ensures v in IdSet(s) {
      assert s[v] in s;
    }
  }

  function Iota(n: nat): seq<nat>
  {
    seq(n, i requires 0 <= i < n => i as nat)
  }

  /** `perm` lists each of 0..n-1 exactly once. */
  ghost predicate IsPermutation(perm: seq<nat>, n: nat)
  {
    |perm| == n && (forall k | 0 <= k < |perm| :: perm[k] < n) && multiset(perm) == multiset(Iota(n))
  }

  /** The entries of `s` at the positions listed in `a` (positions past the
      end are skipped; a permutation has none). */
  function Pick(s: seq<Entry>, a: seq<nat>): seq<Entry>
  {
    if a == [] then [] else (if a[0] < |s| then [s[a[0]]] else []) + Pick(s, a[1..])
  }

  lemma {:induction false} PickAt(s: seq<Entry>, a: seq<nat>)
    requires forall k | 0 <= k < |a| :: a[k] < |s|
    ensures |Pick(s, a)| == |a| && forall k | 0 <= k < |a| :: Pick(s, a)[k] == s[a[k]]
  {
    if a != [] {
      PickAt(s, a[1..]);
      assert forall k | 0 < k < |a| :: a[1..][k - 1] == a[k];
    }
  }

  lemma {:induction false} PickConcat(s: seq<Entry>, a: seq<nat>, b: seq<nat>)
    ensures Pick(s, a + b) == Pick(s, a) + Pick(s, b)
  {
    if a == [] {
      assert a + b == b;
    } else {
      assert (a + b)[0] == a[0] && (a + b)[1..] == a[1..] + b;
      PickConcat(s, a[1..], b);
    }
  }

  lemma DropOne(b: seq<nat>, k: int)
    requires 0 <= k < |b|
    ensures multiset(b[..k] + b[k + 1..]) == multiset(b) - multiset{b[k]}
  {
    SplitAt(b, k);
  }

  /** Picking along two orderings of the same positions gives two orderings
      of the same entries. */
  lemma {:induction false} PickPermutes(s: seq<Entry>, a: seq<nat>, b: seq<nat>)
    requires multiset(a) == multiset(b)
    ensures multiset(Pick(s, a)) == multiset(Pick(s, b))
    decreases |a|
  {
    if a == [] {
      assert |multiset(b)| == 0;
    } else {
      var x := a[0];
      assert x in multiset(b);
      var k :| 0 <= k < |b| && b[k] == x;
      DropOne(b, k);
      assert a == [x] + a[1..];
      PickPermutes(s, a[1..], b[..k] + b[k + 1..]);
      PickAround(s, a, b, k);
    }
  }

  lemma SplitAt(b: seq<nat>, k: int)
    requires 0 <= k < |b|
    ensures b == b[..k] + [b[k]] + b[k + 1..]
  {
  }

  lemma PickThree(s: seq<Entry>, front: seq<nat>, x: nat, back: seq<nat>)
    ensures multiset(Pick(s, front + [x] + back)) == multiset(Pick(s, [x])) + multiset(Pick(s, front + back))
  {
    PickConcat(s, front + [x], back);
    PickConcat(s, front, [x]);
    PickConcat(s, front, back);
  }

  lemma PickAround(s: seq<Entry>, a: seq<nat>, b: seq<nat>, k: int)
    requires 0 <= k < |b| && a != [] && b[k] == a[0]
    requires multiset(Pick(s, a[1..])) == multiset(Pick(s, b[..k] + b[k + 1..]))
    ensures multiset(Pick(s, a)) == multiset(Pick(s, b))
  {
    assert a == [a[0]] + a[1..];
    PickConcat(s, [a[0]], a[1..]);
    SplitAt(b, k);
    PickThree(s, b[..k], a[0], b[k + 1..]);
  }

  /** random.shuffle, with the permutation it would pick supplied by the
      caller: position k of the result holds entry perm[k]. */
  function Shuffle(s: seq<Entry>, perm: seq<nat>): (r: seq<Entry>)
    requires IsPermutation(perm, |s|)
    ensures |r| == |s| && forall k | 0 <= k < |r| :: r[k] == s[perm[k]]
    ensures multiset(r) == multiset(s)
  {
    assert |multiset(perm)| == |multiset(Iota(|s|))|;
    PickAt(s, perm);
    PickAt(s, Iota(|s|));
    assert Pick(s, Iota(|s|)) == s;
    PickPermutes(s, perm, Iota(|s|));
    Pick(s, perm)
  }

  /** The per-iteration rebinding of `nodeOrder`: sorted ascending for
      SmallestFirst, descending for LargestFirst, untouched when shuffled.
      Its head is then a smallest resp. largest remaining entry. */
  function Arrange(nodeOrder: seq<Entry>, mode: OrderMode): (r: seq<Entry>)
    ensures multiset(r) == multiset(nodeOrder) && |r| == |nodeOrder|
    ensures mode == SmallestFirst ==> Ordered(r, false)
    ensures mode == LargestFirst ==> Ordered(r, true)
    ensures mode == Shuffled ==> r == nodeOrder
    ensures mode == SmallestFirst && r != [] ==> forall e | e in r :: r[0].rem <= e.rem
    ensures mode == LargestFirst && r != [] ==> forall e | e in r :: r[0].rem >= e.rem
  {
    match mode
    case SmallestFirst => Sort(nodeOrder, false)
    case LargestFirst => Sort(nodeOrder, true)
    case Shuffled => nodeOrder
  }

  /** The success test on the first and last entry of `degSeq`: on a list
      sorted by descending remaining degree it holds exactly when every
      remaining degree is zero. */
  function Exhausted(degSeq: seq<Entry>): (b: bool)
    requires |degSeq| > 0
    ensures Ordered(degSeq, true) ==> (b <==> forall k | 0 <= k < |degSeq| :: degSeq[k].rem == 0)
  {
    degSeq[0].rem == 0 && degSeq[|degSeq| - 1].rem == 0
  }

  /** The inner loop from step i on: connect `cur` to degSeq[i], decrement
      that entry in both views, stop with NegativeDegree when it drops below
      zero, and go on to i + 1 until i reaches cur.rem. */
  function ConnectFrom(cur: Entry, degSeq: seq<Entry>, nodeOrder: seq<Entry>, adj: Adjacency, i: nat): (r: Result<Views>)
    requires cur.rem <= |degSeq| && multiset(degSeq) == multiset(nodeOrder)
    ensures r.Ok? ==> |r.value.degSeq| == |degSeq|
    ensures r.Ok? ==> multiset(r.value.degSeq) == multiset(r.value.nodeOrder)
    ensures r.Err? ==> r.error == NegativeDegree
    decreases cur.rem - i
  {
    if i >= cur.rem then Ok(Views(degSeq, nodeOrder, adj))
    else
      var addNode := degSeq[i];
      assert addNode in multiset(nodeOrder);
      var lowered := Entry(addNode.id, addNode.rem - 1);
      var adj' := AddEdge(AddEdge(adj, cur.id, addNode.id), addNode.id, cur.id);
      var degSeq' := degSeq[i := lowered];
      var nodeOrder' := nodeOrder[IndexOf(nodeOrder, addNode) := lowered];
      LowerBoth(degSeq, nodeOrder, i, lowered);
      if degSeq'[i].rem < 0 then Err(NegativeDegree)
      else ConnectFrom(cur, degSeq', nodeOrder', adj', i + 1)
  }

  /** One pass of the inner loop: the state the next pass starts from, and
      the inner loop's result in terms of it. */
  lemma ConnectFromNext(cur: Entry, degSeq: seq<Entry>, nodeOrder: seq<Entry>, adj: Adjacency, i: nat) returns (v: Views)
    requires cur.rem <= |degSeq| && multiset(degSeq) == multiset(nodeOrder) && i < cur.rem
    ensures degSeq[i] in nodeOrder
    ensures v.degSeq == degSeq[i := Entry(degSeq[i].id, degSeq[i].rem - 1)]
    ensures v.nodeOrder == nodeOrder[IndexOf(nodeOrder, degSeq[i]) := Entry(degSeq[i].id, degSeq[i].rem - 1)]
    ensures v.adj == AddEdge(AddEdge(adj, cur.id, degSeq[i].id), degSeq[i].id, cur.id)
    ensures multiset(v.degSeq) == multiset(v.nodeOrder)
    ensures ConnectFrom(cur, degSeq, nodeOrder, adj, i) ==
      if degSeq[i].rem < 1 then Err(NegativeDegree) else ConnectFrom(cur, v.degSeq, v.nodeOrder, v.adj, i + 1)
  {
    var addNode := degSeq[i];
    assert addNode in multiset(nodeOrder);
    var lowered := Entry(addNode.id, addNode.rem - 1);
    LowerBoth(degSeq, nodeOrder, i, lowered);
    v := Views(degSeq[i := lowered], nodeOrder[IndexOf(nodeOrder, addNode) := lowered], AddEdge(AddEdge(adj, cur.id, addNode.id), addNode.id, cur.id));
  }

  /** The inner loop only adds edges. */
  lemma {:induction false} ConnectFromGrows(cur: Entry, degSeq: seq<Entry>, nodeOrder: seq<Entry>, adj: Adjacency, i: nat)
    requires cur.rem <= |degSeq| && multiset(degSeq) == multiset(nodeOrder)
    ensures ConnectFrom(cur, degSeq, nodeOrder, adj, i).Ok? ==> Grows(adj, ConnectFrom(cur, degSeq, nodeOrder, adj, i).value.adj)
    decreases cur.rem - i
  {
    if i < cur.rem {
      var addNode := degSeq[i];
      assert addNode in multiset(nodeOrder);
      var lowered := Entry(addNode.id, addNode.rem - 1);
      var adj' := AddEdge(AddEdge(adj, cur.id, addNode.id), addNode.id, cur.id);
      LowerBoth(degSeq, nodeOrder, i, lowered);
      ConnectFromGrows(cur, degSeq[i := lowered], nodeOrder[IndexOf(nodeOrder, addNode) := lowered], adj', i + 1);
    }
  }

  /** How one iteration of the main loop ends: with a graph, with an error,
      or with the state the next iteration starts from. */
  datatype Outcome = Done(adj: Adjacency) | Stop(error: Error) | Continue(next: Views)

  /** Replacing degSeq[i] by `x` in `degSeq` and, where list.index finds
      it, in `nodeOrder` keeps the two views the same multiset. */
  lemma LowerBoth(degSeq: seq<Entry>, nodeOrder: seq<Entry>, i: nat, x: Entry)
    requires i < |degSeq| && multiset(degSeq) == multiset(nodeOrder) && degSeq[i] in nodeOrder
    ensures multiset(degSeq[i := x]) == multiset(nodeOrder[IndexOf(nodeOrder, degSeq[i]) := x])
  {
  }

  /** Popping the head of `nodeOrder` and removing it from `degSeq` leaves
      the two views the same multiset again. */
  lemma PopFacts(degSeq: seq<Entry>, nodeOrder: seq<Entry>)
    requires multiset(degSeq) == multiset(nodeOrder) && |degSeq| > 0
    ensures |nodeOrder| == |degSeq| && nodeOrder[0] in degSeq
    ensures multiset(Remove(degSeq, nodeOrder[0])) == multiset(nodeOrder[1..])
  {
    assert |nodeOrder| == |multiset(nodeOrder)| == |degSeq|;
    assert nodeOrder == [nodeOrder[0]] + nodeOrder[1..];
    assert nodeOrder[0] in multiset(degSeq);
  }

  /** One iteration of the main loop on the freshly sorted views: succeed
      when every remaining degree is zero, otherwise pop the head of
      `nodeOrder`, remove it from `degSeq`, check there are enough partners
      and connect. The next iteration starts with one entry fewer. */
  function Step(degSeq: seq<Entry>, nodeOrder: seq<Entry>, adj: Adjacency): (r: Outcome)
    requires multiset(degSeq) == multiset(nodeOrder)
    ensures r.Continue? ==> |r.next.degSeq| == |degSeq| - 1
    ensures r.Continue? ==> multiset(r.next.degSeq) == multiset(r.next.nodeOrder)
    ensures r.Done? ==> r.adj == adj
    ensures r.Continue? ==> Grows(adj, r.next.adj)
  {
    if |degSeq| == 0 then Stop(EmptyDegSeq)
    else if Exhausted(degSeq) then Done(adj)
    else
      PopFacts(degSeq, nodeOrder);
      var cur := nodeOrder[0];
      var rest := Remove(degSeq, cur);
      if cur.rem > |rest| then Stop(NotEnoughNodes)
      else
        ConnectFromGrows(cur, rest, nodeOrder[1..], adj, 0);
        match ConnectFrom(cur, rest, nodeOrder[1..], adj, 0)
        case Err(e) => Stop(e)
        case Ok(v) => Continue(v)
  }

  /** The branch of an iteration that reaches the inner loop. */
  lemma StepConnects(degSeq: seq<Entry>, nodeOrder: seq<Entry>, adj: Adjacency)
    requires multiset(degSeq) == multiset(nodeOrder) && |degSeq| > 0 && !Exhausted(degSeq)
    requires nodeOrder[0].rem <= |degSeq| - 1
    ensures nodeOrder[0] in degSeq && multiset(Remove(degSeq, nodeOrder[0])) == multiset(nodeOrder[1..])
    ensures Step(degSeq, nodeOrder, adj) ==
      match ConnectFrom(nodeOrder[0], Remove(degSeq, nodeOrder[0]), nodeOrder[1..], adj, 0)
      case Err(e) => Stop(e)
      case Ok(v) => Continue(v)
  {
    PopFacts(degSeq, nodeOrder);
  }

  /** The Havel-Hakimi choice: on the sorted `degSeq` an iteration works on,
      removing the current node leaves the list sorted, so the partners at
      positions 0..cur.rem-1 have remaining degrees no smaller than those of
      the entries left out. */
  lemma PartnersAreLargest(degSeq: seq<Entry>, cur: Entry)
    requires Ordered(degSeq, true) && cur in degSeq
    ensures Ordered(Remove(degSeq, cur), true)
    ensures forall j, k | 0 <= j < cur.rem && cur.rem <= k < |Remove(degSeq, cur)| ::
      Remove(degSeq, cur)[j].rem >= Remove(degSeq, cur)[k].rem
  {
    RemoveKeepsOrdered(degSeq, cur, true);
  }

  /** The main loop from a state on: every iteration first re-sorts
      `degSeq` by descending remaining degree and rebinds `nodeOrder` as the
      order mode says, until an iteration stops the loop. */
  function Reduce(degSeq: seq<Entry>, nodeOrder: seq<Entry>, adj: Adjacency, mode: OrderMode): (r: Result<Adjacency>)
    requires multiset(degSeq) == multiset(nodeOrder)
    ensures |degSeq| == 0 ==> r == Err(EmptyDegSeq)
    ensures r.Ok? ==> Grows(adj, r.value)
    decreases |degSeq|
  {
    var sorted := Sort(degSeq, true);
    var order := Arrange(nodeOrder, mode);
    match Step(sorted, order, adj)
    case Done(a) => Ok(a)
    case Stop(e) => Err(e)
    case Continue(v) => Reduce(v.degSeq, v.nodeOrder, v.adj, mode)
  }
}
