/** What a successful run of the realizer guarantees: the returned map is a
    simple undirected graph on the nodes 0..n-1 in which every node has its
    requested degree. The proof carries one invariant through every
    iteration of `Reduce`. */
module Soundness {
  import opened Graph
  import opened Entries
  import opened Sorting
  import opened Realizer

  function Max0(x: int): nat
  {
    if x < 0 then 0 else x
  }

  /** `adj` realizes `deg`: a simple graph on 0..n-1 where node v has
      max(deg[v], 0) neighbours (deg[v] itself for a non-negative degree). */
  ghost predicate IsRealization(adj: Adjacency, deg: seq<int>)
  {
    WellFormed(adj, |deg|) && forall v: nat | v < |deg| :: Degree(adj, v) == Max0(deg[v])
  }

  ghost predicate NonNegative(deg: seq<int>)
  {
    forall i | 0 <= i < |deg| :: deg[i] >= 0
  }

  // ---------------------------------------------------------------------
  // The invariant at the top of every iteration
  // ---------------------------------------------------------------------

  /** For a node still in `degSeq`: the edges it has plus the edges it still
      needs make its requested degree, and once it has an edge its remaining
      degree is not negative. */
  ghost predicate AliveOk(deg: seq<int>, ds: seq<Entry>, adj: Adjacency)
  {
    forall e | e in ds ::
      && e.id < |deg|
      && Degree(adj, e.id) + e.rem == deg[e.id]
      && (Degree(adj, e.id) > 0 ==> e.rem >= 0)
  }

  /** A node still in `degSeq` has only been connected to processed nodes. */
  ghost predicate AliveNbrsDead(ds: seq<Entry>, adj: Adjacency)
  {
    forall e, u | e in ds && u in Nbrs(adj, e.id) :: u !in IdSet(ds)
  }

  /** A processed node already has its final degree. */
  ghost predicate DeadDone(deg: seq<int>, ds: seq<Entry>, adj: Adjacency)
  {
    forall v: nat | v < |deg| && v !in IdSet(ds) :: Degree(adj, v) == Max0(deg[v])
  }

  ghost predicate Inv(deg: seq<int>, ds: seq<Entry>, adj: Adjacency)
  {
    && UniqueIds(ds)
    && WellFormed(adj, |deg|)
    && AliveOk(deg, ds, adj)
    && AliveNbrsDead(ds, adj)
    && DeadDone(deg, ds, adj)
  }

  /** Re-sorting `degSeq` (any reordering of it) keeps the invariant. */
  lemma InvPermuted(deg: seq<int>, ds: seq<Entry>, ds': seq<Entry>, adj: Adjacency)
    requires Inv(deg, ds, adj) && multiset(ds') == multiset(ds)
    ensures Inv(deg, ds', adj)
  {
    UniqueIdsSub(ds, ds');
    assert forall e :: e in ds' <==> e in ds by {
      forall e ensures e in ds' <==> e in ds {
        assert e in ds' <==> e in multiset(ds');
        assert e in ds <==> e in multiset(ds);
      }
    }
    assert IdSet(ds') == IdSet(ds);
  }

  // ---------------------------------------------------------------------
  // One inner loop: what ConnectFrom does to the views and the graph
  // ---------------------------------------------------------------------

  /** The ids of positions lo..hi-1 of `ds`. */
  ghost function TopIds(ds: seq<Entry>, lo: int, hi: int): set<nat>
  {
    set k | lo <= k < hi && 0 <= k < |ds| :: ds[k].id
  }

  /** `adj'` is `adj` with an undirected edge between `c` and every node of `t`. */
  ghost predicate Linked(adj: Adjacency, adj': Adjacency, c: nat, t: set<nat>)
  {
    && (forall u: nat :: Nbrs(adj', u) == Nbrs(adj, u) + (if u == c then t else {}) + (if u in t then {c} else {}))
    && (forall u | u in adj' :: u in adj || (u == c && t != {}) || u in t)
  }

  /** `b` lists the ids of `a`, position by position. */
  ghost predicate SameIds(a: seq<Entry>, b: seq<Entry>)
  {
    |b| == |a| && forall k | 0 <= k < |a| :: b[k].id == a[k].id
  }

  /** `ds'` is `ds` with the remaining degrees at positions lo..hi-1 lowered
      by one, ids and every other entry unchanged. */
  ghost predicate Lowered(ds: seq<Entry>, ds': seq<Entry>, lo: int, hi: int)
  {
    && SameIds(ds, ds')
    && (forall k | 0 <= k < |ds| :: ds'[k].rem == if lo <= k < hi then ds[k].rem - 1 else ds[k].rem)
  }

  lemma TopIdsShift(ds: seq<Entry>, ds': seq<Entry>, i: int, hi: int)
    requires 0 <= i < hi && i < |ds| == |ds'|
    requires forall k | 0 <= k < |ds| :: ds'[k].id == ds[k].id
    ensures TopIds(ds, i, hi) == {ds[i].id} + TopIds(ds', i + 1, hi)
  {
    forall u | u in TopIds(ds, i, hi) ensures u in {ds[i].id} + TopIds(ds', i + 1, hi) {
      var k :| i <= k < hi && 0 <= k < |ds| && ds[k].id == u;
      if k > i { assert ds'[k].id == u; }
    }
    forall u | u in TopIds(ds', i + 1, hi) ensures u in TopIds(ds, i, hi) {
      var k :| i + 1 <= k < hi && 0 <= k < |ds'| && ds'[k].id == u;
      assert ds[k].id == u;
    }
  }

  /** Adding c->b and then b->c to a graph linked to `t` links it to {b} + t. */
  lemma LinkedStep(adj: Adjacency, adj': Adjacency, adj'': Adjacency, c: nat, b: nat, t: set<nat>)
    requires adj' == AddEdge(AddEdge(adj, c, b), b, c)
    requires Linked(adj', adj'', c, t)
    ensures Linked(adj, adj'', c, {b} + t)
  {
    var adj1 := AddEdge(adj, c, b);
    forall u: nat
      ensures Nbrs(adj'', u) == Nbrs(adj, u) + (if u == c then {b} + t else {}) + (if u in {b} + t then {c} else {})
    {
      assert Nbrs(adj1, u) == if u == c then Nbrs(adj, u) + {b} else Nbrs(adj, u);
      assert Nbrs(adj', u) == if u == b then Nbrs(adj1, u) + {c} else Nbrs(adj1, u);
    }
  }

  /** Lowering position i and then positions i+1..hi-1 lowers i..hi-1. */
  lemma LoweredStep(ds: seq<Entry>, ds'': seq<Entry>, i: nat, hi: int)
    requires i < |ds| && i < hi
    requires Lowered(ds[i := Entry(ds[i].id, ds[i].rem - 1)], ds'', i + 1, hi)
    ensures Lowered(ds, ds'', i, hi)
  {
  }

  /** Overwriting position k with an entry of the same id keeps the ids. */
  lemma SameIdsStep(a: seq<Entry>, b: seq<Entry>, k: nat, x: Entry)
    requires k < |a| && a[k].id == x.id && SameIds(a[k := x], b)
    ensures SameIds(a, b)
  {
  }

  /** The inner loop from step i on, when it completes, lowers the entries
      at positions i..d-1 (d = cur.rem) of `degSeq` by one, and leaves the
      id at every position of both lists in place. */
  lemma {:induction false} ConnectFromLowers(cur: Entry, ds: seq<Entry>, no: seq<Entry>, adj: Adjacency, i: nat)
    requires cur.rem <= |ds| && multiset(ds) == multiset(no)
    requires ConnectFrom(cur, ds, no, adj, i).Ok?
    ensures Lowered(ds, ConnectFrom(cur, ds, no, adj, i).value.degSeq, i, cur.rem)
    ensures SameIds(no, ConnectFrom(cur, ds, no, adj, i).value.nodeOrder)
    decreases cur.rem - i
  {
    if i < cur.rem {
      var v := ConnectFromNext(cur, ds, no, adj, i);
      ConnectFromLowers(cur, v.degSeq, v.nodeOrder, v.adj, i + 1);
      var w := ConnectFrom(cur, v.degSeq, v.nodeOrder, v.adj, i + 1).value;
      LoweredStep(ds, w.degSeq, i, cur.rem);
      SameIdsStep(no, w.nodeOrder, IndexOf(no, ds[i]), Entry(ds[i].id, ds[i].rem - 1));
    }
  }

  /** `no'` is `no` with every entry whose id is in `t` lowered by one:
      same length, same id at every position, every other entry unchanged. */
  ghost predicate LoweredAt(no: seq<Entry>, no': seq<Entry>, t: set<nat>)
  {
    && SameIds(no, no')
    && (forall k | 0 <= k < |no| :: no'[k].rem == if no[k].id in t then no[k].rem - 1 else no[k].rem)
  }

  /** With distinct ids, a `nodeOrder` lowered in step with `degSeq` is
      lowered at exactly the positions holding the ids lowered in `degSeq`. */
  lemma LoweredAtPosition(ds: seq<Entry>, ds': seq<Entry>, no: seq<Entry>, no': seq<Entry>, lo: int, hi: int, k: nat)
    requires UniqueIds(ds) && Lowered(ds, ds', lo, hi)
    requires multiset(ds) == multiset(no) && multiset(ds') == multiset(no')
    requires k < |no| && k < |no'| && no'[k].id == no[k].id
    ensures no'[k].rem == if no[k].id in TopIds(ds, lo, hi) then no[k].rem - 1 else no[k].rem
  {
    assert no[k] in multiset(ds);
    var p :| 0 <= p < |ds| && ds[p] == no[k];
    assert no'[k] in multiset(ds');
    var q :| 0 <= q < |ds'| && ds'[q] == no'[k];
    assert ds[q].id == ds[p].id;
    if no[k].id in TopIds(ds, lo, hi) {
      var p' :| lo <= p' < hi && 0 <= p' < |ds| && ds[p'].id == no[k].id;
      assert p' == p;
    }
  }

  /** The inner loop from step i on, when it completes, changes `nodeOrder`
      in place: every position keeps its id, so the order in which nodes
      are taken is untouched, and exactly the partners' entries are lowered
      by one. */
  lemma ConnectFromKeepsOrder(cur: Entry, ds: seq<Entry>, no: seq<Entry>, adj: Adjacency, i: nat)
    requires cur.rem <= |ds| && multiset(ds) == multiset(no) && UniqueIds(no)
    requires ConnectFrom(cur, ds, no, adj, i).Ok?
    ensures LoweredAt(no, ConnectFrom(cur, ds, no, adj, i).value.nodeOrder, TopIds(ds, i, cur.rem))
  {
    var v := ConnectFrom(cur, ds, no, adj, i).value;
    ConnectFromLowers(cur, ds, no, adj, i);
    UniqueIdsSub(no, ds);
    forall k | 0 <= k < |no|
      ensures v.nodeOrder[k].rem == if no[k].id in TopIds(ds, i, cur.rem) then no[k].rem - 1 else no[k].rem
    {
      LoweredAtPosition(ds, v.degSeq, no, v.nodeOrder, i, cur.rem, k);
    }
  }

  /** The inner loop from step i on, when it completes, links `cur` to the
      node of every entry at positions i..d-1 and changes nothing else. */
  lemma {:induction false} ConnectFromLinks(cur: Entry, ds: seq<Entry>, no: seq<Entry>, adj: Adjacency, i: nat)
    requires cur.rem <= |ds| && multiset(ds) == multiset(no)
    requires ConnectFrom(cur, ds, no, adj, i).Ok?
    ensures Linked(adj, ConnectFrom(cur, ds, no, adj, i).value.adj, cur.id, TopIds(ds, i, cur.rem))
    decreases cur.rem - i
  {
    if i >= cur.rem {
      assert TopIds(ds, i, cur.rem) == {};
    } else {
      var v := ConnectFromNext(cur, ds, no, adj, i);
      ConnectFromLinks(cur, v.degSeq, v.nodeOrder, v.adj, i + 1);
      LinkedShift(cur, ds, adj, v, ConnectFrom(cur, v.degSeq, v.nodeOrder, v.adj, i + 1).value.adj, i);
    }
  }

  /** One pass of the inner loop adds the edge to ds[i] to what the passes
      after it link. */
  lemma LinkedShift(cur: Entry, ds: seq<Entry>, adj: Adjacency, v: Views, adj'': Adjacency, i: nat)
    requires i < cur.rem <= |ds|
    requires v.degSeq == ds[i := Entry(ds[i].id, ds[i].rem - 1)]
    requires v.adj == AddEdge(AddEdge(adj, cur.id, ds[i].id), ds[i].id, cur.id)
    requires Linked(v.adj, adj'', cur.id, TopIds(v.degSeq, i + 1, cur.rem))
    ensures Linked(adj, adj'', cur.id, TopIds(ds, i, cur.rem))
  {
    TopIdsShift(ds, v.degSeq, i, cur.rem);
    LinkedStep(adj, v.adj, adj'', cur.id, ds[i].id, TopIds(v.degSeq, i + 1, cur.rem));
  }

  /** Every entry at positions lo..hi-1 still needs a partner. */
  ghost predicate Positive(ds: seq<Entry>, lo: nat, hi: int)
    requires hi <= |ds|
  {
    forall k | lo <= k < hi :: ds[k].rem > 0
  }

  lemma PositiveStep(ds: seq<Entry>, i: nat, hi: int, x: Entry)
    requires i < hi <= |ds|
    ensures Positive(ds, i, hi) <==> ds[i].rem > 0 && Positive(ds[i := x], i + 1, hi)
  {
    assert forall k | i + 1 <= k < hi :: ds[i := x][k] == ds[k];
  }

  /** The inner loop fails exactly when one of the entries it lowers already
      had remaining degree zero or less. */
  lemma ConnectFromOutcome(cur: Entry, ds: seq<Entry>, no: seq<Entry>, adj: Adjacency, i: nat)
    requires cur.rem <= |ds| && multiset(ds) == multiset(no)
    ensures ConnectFrom(cur, ds, no, adj, i).Ok? <==> Positive(ds, i, cur.rem)
  {
    ConnectFromNeedsPositive(cur, ds, no, adj, i);
    ConnectFromOnPositive(cur, ds, no, adj, i);
  }

  lemma {:induction false} ConnectFromNeedsPositive(cur: Entry, ds: seq<Entry>, no: seq<Entry>, adj: Adjacency, i: nat)
    requires cur.rem <= |ds| && multiset(ds) == multiset(no)
    ensures ConnectFrom(cur, ds, no, adj, i).Ok? ==> Positive(ds, i, cur.rem)
    decreases cur.rem - i
  {
    if i < cur.rem {
      var v := ConnectFromNext(cur, ds, no, adj, i);
      PositiveStep(ds, i, cur.rem, Entry(ds[i].id, ds[i].rem - 1));
      if ds[i].rem >= 1 {
        ConnectFromNeedsPositive(cur, v.degSeq, v.nodeOrder, v.adj, i + 1);
      }
    }
  }

  lemma {:induction false} ConnectFromOnPositive(cur: Entry, ds: seq<Entry>, no: seq<Entry>, adj: Adjacency, i: nat)
    requires cur.rem <= |ds| && multiset(ds) == multiset(no)
    ensures Positive(ds, i, cur.rem) ==> ConnectFrom(cur, ds, no, adj, i).Ok?
    decreases cur.rem - i
  {
    if i < cur.rem {
      var v := ConnectFromNext(cur, ds, no, adj, i);
      PositiveStep(ds, i, cur.rem, Entry(ds[i].id, ds[i].rem - 1));
      ConnectFromOnPositive(cur, v.degSeq, v.nodeOrder, v.adj, i + 1);
    }
  }

  // ---------------------------------------------------------------------
  // One iteration keeps the invariant
  // ---------------------------------------------------------------------

  /** An entry left after removing `cur` from a list with unique ids is
      one of the list's entries other than `cur`, with another id. */
  lemma RemoveLeavesOthers(ds: seq<Entry>, cur: Entry)
    requires UniqueIds(ds) && cur in ds
    ensures forall e | e in Remove(ds, cur) :: e in ds && e.id != cur.id
  {
    var r := Remove(ds, cur);
    UniqueIdsCounts(ds);
    forall e | e in r ensures e in ds && e.id != cur.id {
      assert e in multiset(r);
      assert multiset(ds)[e] >= multiset(r)[e] + (if e == cur then 1 else 0);
      assert e != cur;
      DistinctIds(ds, e, cur);
    }
  }

  /** What removing `cur` from a list with unique ids leaves. */
  lemma RemoveFacts(ds: seq<Entry>, cur: Entry)
    requires UniqueIds(ds) && cur in ds
    ensures UniqueIds(Remove(ds, cur))
    ensures IdSet(Remove(ds, cur)) == IdSet(ds) - {cur.id}
    ensures forall e | e in Remove(ds, cur) :: e in ds
  {
    var r := Remove(ds, cur);
    UniqueIdsSub(ds, r);
    RemoveLeavesOthers(ds, cur);
    RemoveKeepsOthers(ds, cur);
    IdSetWithout(ds, r, cur);
  }

  lemma IdSetWithout(ds: seq<Entry>, r: seq<Entry>, cur: Entry)
    requires forall e | e in r :: e in ds && e.id != cur.id
    requires forall e | e in ds && e != cur :: e in r
    ensures IdSet(r) == IdSet(ds) - {cur.id}
  {
    forall u | u in IdSet(ds) - {cur.id} ensures u in IdSet(r) {
      var e :| e in ds && e.id == u;
      assert e in r;
    }
  }

  lemma RemoveKeepsOthers(ds: seq<Entry>, cur: Entry)
    requires cur in ds
    ensures forall e | e in ds && e != cur :: e in Remove(ds, cur)
  {
    forall e | e in ds && e != cur ensures e in Remove(ds, cur) {
      assert e in multiset(ds);
      assert e in multiset(Remove(ds, cur));
    }
  }

  /** With unique ids, position k is among the first d exactly when its id
      is, and the first d positions carry d distinct ids. */
  lemma {:induction false} TopIdsFacts(ds: seq<Entry>, d: int)
    requires UniqueIds(ds) && d <= |ds|
    ensures forall k | 0 <= k < |ds| :: ds[k].id in TopIds(ds, 0, d) <==> k < d
    ensures TopIds(ds, 0, d) <= IdSet(ds)
    ensures |TopIds(ds, 0, d)| == Max0(d)
    decreases Max0(d)
  {
    forall k | 0 <= k < |ds| && ds[k].id in TopIds(ds, 0, d) ensures k < d {
      var j :| 0 <= j < d && j < |ds| && ds[j].id == ds[k].id;
    }
    forall u | u in TopIds(ds, 0, d) ensures u in IdSet(ds) {
      var j :| 0 <= j < d && j < |ds| && ds[j].id == u;
      assert ds[j] in ds;
    }
    if d <= 0 {
      assert TopIds(ds, 0, d) == {};
    } else {
      TopIdsFacts(ds, d - 1);
      assert TopIds(ds, 0, d) == TopIds(ds, 0, d - 1) + {ds[d - 1].id};
    }
  }

  lemma LinkedWithinRange(adj: Adjacency, adj': Adjacency, c: nat, t: set<nat>, n: nat)
    requires WithinRange(adj, n) && Linked(adj, adj', c, t)
    requires c < n && forall u | u in t :: u < n
    ensures WithinRange(adj', n)
  {
    forall u | u in adj' ensures u < n {
      assert u in adj || u == c || u in t;
    }
    forall u, w | u in adj' && w in adj'[u] ensures w < n {
      assert adj'[u] == Nbrs(adj', u);
      if w in Nbrs(adj, u) { assert u in adj && w in adj[u]; }
    }
  }

  lemma LinkedNoEmptySets(adj: Adjacency, adj': Adjacency, c: nat, t: set<nat>)
    requires NoEmptySets(adj) && Linked(adj, adj', c, t)
    ensures NoEmptySets(adj')
  {
    forall u | u in adj' ensures adj'[u] != {} {
      assert adj'[u] == Nbrs(adj', u);
      if u !in adj {
        assert (u == c && t != {}) || u in t;
      } else {
        assert adj[u] == Nbrs(adj, u);
      }
    }
  }

  /** Processing `cur` keeps the graph simple and within 0..n-1. */
  lemma LinkedWellFormed(adj: Adjacency, adj': Adjacency, c: nat, t: set<nat>, n: nat)
    requires WellFormed(adj, n) && Linked(adj, adj', c, t)
    requires c < n && c !in t && forall u | u in t :: u < n
    ensures WellFormed(adj', n)
  {
    assert Symmetric(adj') && LoopFree(adj');
    LinkedWithinRange(adj, adj', c, t, n);
    LinkedNoEmptySets(adj, adj', c, t);
  }

  /** In the new state every entry still in `degSeq` satisfies AliveOk and
      AliveNbrsDead. */
  lemma StepAlive(degs: seq<int>, ds1: seq<Entry>, ds2: seq<Entry>, ds3: seq<Entry>,
                  adj: Adjacency, adj': Adjacency, cur: Entry, t: set<nat>)
    requires AliveOk(degs, ds1, adj) && AliveNbrsDead(ds1, adj) && cur in ds1
    requires IdSet(ds2) == IdSet(ds1) - {cur.id} && forall e | e in ds2 :: e in ds1
    requires cur.rem <= |ds2| && Lowered(ds2, ds3, 0, cur.rem) && forall k | 0 <= k < cur.rem :: ds2[k].rem > 0
    requires forall k | 0 <= k < |ds2| :: ds2[k].id in t <==> k < cur.rem
    requires Linked(adj, adj', cur.id, t) && cur.id !in t
    requires IdSet(ds3) == IdSet(ds2)
    ensures AliveOk(degs, ds3, adj') && AliveNbrsDead(ds3, adj')
  {
    forall e | e in ds3
      ensures e.id < |degs| && Degree(adj', e.id) + e.rem == degs[e.id] && (Degree(adj', e.id) > 0 ==> e.rem >= 0)
      ensures forall u | u in Nbrs(adj', e.id) :: u !in IdSet(ds3)
    {
      var k :| 0 <= k < |ds3| && ds3[k] == e;
      var prev := ds2[k];
      assert prev in ds1 && prev.id == e.id;
      assert cur.id in IdSet(ds1);
      assert e.id != cur.id by { assert e.id in IdSet(ds2); }
      if k < cur.rem {
        assert cur.id !in Nbrs(adj, e.id);
        assert Nbrs(adj', e.id) == Nbrs(adj, e.id) + {cur.id};
      } else {
        assert Nbrs(adj', e.id) == Nbrs(adj, e.id);
      }
    }
  }

  /** `cur`, linked to the distinct nodes of `t`, reaches its requested degree. */
  lemma CurDone(degs: seq<int>, ds1: seq<Entry>, adj: Adjacency, adj': Adjacency, cur: Entry, t: set<nat>)
    requires AliveOk(degs, ds1, adj) && AliveNbrsDead(ds1, adj) && cur in ds1
    requires t <= IdSet(ds1) && |t| == Max0(cur.rem)
    requires Nbrs(adj', cur.id) == Nbrs(adj, cur.id) + t
    ensures Degree(adj', cur.id) == Max0(degs[cur.id])
  {
    assert Nbrs(adj, cur.id) !! t by {
      forall u | u in Nbrs(adj, cur.id) ensures u !in t {
        assert u !in IdSet(ds1);
      }
    }
    assert Degree(adj', cur.id) == Degree(adj, cur.id) + |t|;
  }

  /** In the new state every processed node, `cur` among them, has its final
      degree. */
  lemma StepDead(degs: seq<int>, ds1: seq<Entry>, ds3: seq<Entry>, adj: Adjacency, adj': Adjacency, cur: Entry, t: set<nat>)
    requires AliveOk(degs, ds1, adj) && AliveNbrsDead(ds1, adj) && DeadDone(degs, ds1, adj) && cur in ds1
    requires IdSet(ds3) == IdSet(ds1) - {cur.id}
    requires t <= IdSet(ds1) - {cur.id} && |t| == Max0(cur.rem)
    requires Linked(adj, adj', cur.id, t)
    ensures DeadDone(degs, ds3, adj')
  {
    assert cur.id !in t;
    assert Nbrs(adj', cur.id) == Nbrs(adj, cur.id) + t;
    CurDone(degs, ds1, adj, adj', cur, t);
    forall v: nat | v < |degs| && v !in IdSet(ds3) && v != cur.id ensures Degree(adj', v) == Max0(degs[v]) {
      assert v !in IdSet(ds1);
      assert v !in t;
      assert Nbrs(adj', v) == Nbrs(adj, v);
    }
  }

  /** Lowering the remaining degrees keeps the ids, position by position. */
  lemma LoweredIds(ds: seq<Entry>, ds': seq<Entry>, lo: int, hi: int)
    requires Lowered(ds, ds', lo, hi)
    ensures IdSet(ds') == IdSet(ds)
    ensures UniqueIds(ds) ==> UniqueIds(ds')
  {
    forall u | u in IdSet(ds') ensures u in IdSet(ds) {
      var e :| e in ds' && e.id == u;
      var k :| 0 <= k < |ds'| && ds'[k] == e;
      assert ds[k] in ds;
    }
    forall u | u in IdSet(ds) ensures u in IdSet(ds') {
      var e :| e in ds && e.id == u;
      var k :| 0 <= k < |ds| && ds[k] == e;
      assert ds'[k] in ds';
    }
  }

  /** One full iteration that neither fails nor succeeds keeps the invariant:
      `ds2` is `degSeq` without `cur`, and the inner loop lowered its first
      cur.rem entries (`ds3`) and linked `cur` to their nodes (`adj'`). */
  lemma StepInv(deg: seq<int>, ds1: seq<Entry>, cur: Entry, ds2: seq<Entry>, ds3: seq<Entry>, adj: Adjacency, adj': Adjacency)
    requires Inv(deg, ds1, adj) && cur in ds1 && ds2 == Remove(ds1, cur)
    requires cur.rem <= |ds2| && Lowered(ds2, ds3, 0, cur.rem) && forall k | 0 <= k < cur.rem :: ds2[k].rem > 0
    requires Linked(adj, adj', cur.id, TopIds(ds2, 0, cur.rem))
    ensures Inv(deg, ds3, adj')
  {
    RemoveFacts(ds1, cur);
    var t := TopIds(ds2, 0, cur.rem);
    TopIdsFacts(ds2, cur.rem);
    LoweredIds(ds2, ds3, 0, cur.rem);
    assert cur.id !in t;
    assert cur.id < |deg|;
    LinkedWellFormed(adj, adj', cur.id, t, |deg|);
    StepAlive(deg, ds1, ds2, ds3, adj, adj', cur, t);
    StepDead(deg, ds1, ds3, adj, adj', cur, t);
  }

  // ---------------------------------------------------------------------
  // The whole run
  // ---------------------------------------------------------------------

  /** When every remaining degree is zero, the graph built so far realizes
      the requested degrees. */
  lemma ExhaustedRealizes(deg: seq<int>, ds: seq<Entry>, adj: Adjacency)
    requires Inv(deg, ds, adj)
    requires forall k | 0 <= k < |ds| :: ds[k].rem == 0
    ensures IsRealization(adj, deg)
  {
    forall v: nat | v < |deg| ensures Degree(adj, v) == Max0(deg[v]) {
      if v in IdSet(ds) {
        var e :| e in ds && e.id == v;
        var k :| 0 <= k < |ds| && ds[k] == e;
      }
    }
  }

  /** One iteration from a sorted state satisfying the invariant either
      ends with a realization or continues from a state satisfying it. */
  lemma StepSound(deg: seq<int>, ds: seq<Entry>, no: seq<Entry>, adj: Adjacency)
    requires multiset(ds) == multiset(no) && Inv(deg, ds, adj) && Ordered(ds, true)
    ensures Step(ds, no, adj).Done? ==> IsRealization(Step(ds, no, adj).adj, deg)
    ensures Step(ds, no, adj).Continue? ==> Inv(deg, Step(ds, no, adj).next.degSeq, Step(ds, no, adj).next.adj)
  {
    if |ds| > 0 {
      if Exhausted(ds) {
        ExhaustedRealizes(deg, ds, adj);
      } else {
        PopFacts(ds, no);
        var cur := no[0];
        var rest := Remove(ds, cur);
        if cur.rem <= |rest| && ConnectFrom(cur, rest, no[1..], adj, 0).Ok? {
          var v := ConnectFrom(cur, rest, no[1..], adj, 0).value;
          ConnectFromLowers(cur, rest, no[1..], adj, 0);
          ConnectFromLinks(cur, rest, no[1..], adj, 0);
          ConnectFromOutcome(cur, rest, no[1..], adj, 0);
          StepInv(deg, ds, cur, rest, v.degSeq, adj, v.adj);
        }
      }
    }
  }

  lemma {:induction false} ReduceSound(deg: seq<int>, ds: seq<Entry>, no: seq<Entry>, adj: Adjacency, mode: OrderMode)
    requires multiset(ds) == multiset(no) && Inv(deg, ds, adj)
    ensures Reduce(ds, no, adj, mode).Ok? ==> IsRealization(Reduce(ds, no, adj, mode).value, deg)
    decreases |ds|
  {
    var sorted := Sort(ds, true);
    var order := Arrange(no, mode);
    InvPermuted(deg, ds, sorted, adj);
    StepSound(deg, sorted, order, adj);
    var o := Step(sorted, order, adj);
    if o.Continue? {
      ReduceSound(deg, o.next.degSeq, o.next.nodeOrder, o.next.adj, mode);
    }
  }

  /** With non-negative degrees, an iteration on a non-empty `degSeq` does
      not continue with an empty one. */
  lemma StepKeepsEntries(deg: seq<int>, ds: seq<Entry>, no: seq<Entry>, adj: Adjacency)
    requires multiset(ds) == multiset(no) && Inv(deg, ds, adj)
    requires NonNegative(deg) && |ds| > 0
    ensures Step(ds, no, adj) != Stop(EmptyDegSeq)
    ensures Step(ds, no, adj).Continue? ==> |Step(ds, no, adj).next.degSeq| > 0
  {
    if |ds| == 1 && !Exhausted(ds) {
      PopFacts(ds, no);
      var cur := no[0];
      assert cur == ds[0];
      assert cur.rem > 0;
    }
  }

  /** With non-negative degrees a non-empty `degSeq` never runs empty, so
      the `degSeq[0]` lookup cannot fail. */
  lemma {:induction false} ReduceNeverEmpties(deg: seq<int>, ds: seq<Entry>, no: seq<Entry>, adj: Adjacency, mode: OrderMode)
    requires multiset(ds) == multiset(no) && Inv(deg, ds, adj)
    requires NonNegative(deg) && |ds| > 0
    ensures Reduce(ds, no, adj, mode) != Err(EmptyDegSeq)
    decreases |ds|
  {
    var sorted := Sort(ds, true);
    var order := Arrange(no, mode);
    InvPermuted(deg, ds, sorted, adj);
    StepKeepsEntries(deg, sorted, order, adj);
    StepSound(deg, sorted, order, adj);
    var o := Step(sorted, order, adj);
    if o.Continue? {
      ReduceNeverEmpties(deg, o.next.degSeq, o.next.nodeOrder, o.next.adj, mode);
    }
  }

  lemma InitialInv(deg: seq<int>)
    ensures Inv(deg, InitialEntries(deg), map[])
  {
    var es := InitialEntries(deg);
    forall v: nat | v < |deg| ensures v in IdSet(es) {
      assert es[v] in es;
    }
  }

  /** In a realization the keys are exactly the nodes of positive degree. */
  lemma RealizationKeys(adj: Adjacency, deg: seq<int>)
    requires IsRealization(adj, deg)
    ensures forall v: nat :: v in adj <==> v < |deg| && deg[v] > 0
  {
    forall v: nat ensures v in adj <==> v < |deg| && deg[v] > 0 {
      if v in adj {
        assert adj[v] == Nbrs(adj, v);
      } else if v < |deg| {
        assert Nbrs(adj, v) == {};
      }
    }
  }
}
