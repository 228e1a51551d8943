/** The whole run of havel_hakimi on a degree sequence, with what it
    guarantees: a returned map is a simple undirected graph on 0..n-1 in
    which node v has max(degrees[v], 0) neighbours, and the empty-list
    lookup fails exactly on an empty input among the inputs whose requested
    degrees are all non-negative. */
module Realization {
  import opened Graph
  import opened Entries
  import opened Realizer
  import opened Soundness

  /** havel_hakimi on `degrees` with order argument `order`; `perm` is the
      shuffle, consulted only when the order argument asks for one. */
  function Realize(degrees: seq<int>, order: int, perm: seq<nat>): (r: Result<Adjacency>)
    requires ModeOf(order) == Shuffled ==> IsPermutation(perm, |degrees|)
    ensures r.Ok? ==> IsRealization(r.value, degrees)
    ensures r.Ok? ==> forall v: nat :: v in r.value <==> v < |degrees| && degrees[v] > 0
    ensures r == Err(EmptyDegSeq) ==> |degrees| == 0 || !NonNegative(degrees)
    ensures |degrees| == 0 ==> r == Err(EmptyDegSeq)
  {
    var entries := InitialEntries(degrees);
    var mode := ModeOf(order);
    var no := if mode == Shuffled then Shuffle(entries, perm) else entries;
    InitialInv(degrees);
    ReduceSound(degrees, entries, no, map[], mode);
    var r := Reduce(entries, no, map[], mode);
    RealizeFacts(degrees, entries, no, mode, r);
    r
  }

  /** What the main loop's soundness and its non-emptiness say about a run
      that starts from the fresh entries. */
  lemma RealizeFacts(degrees: seq<int>, entries: seq<Entry>, no: seq<Entry>, mode: OrderMode, r: Result<Adjacency>)
    requires entries == InitialEntries(degrees) && multiset(entries) == multiset(no)
    requires r == Reduce(entries, no, map[], mode)
    requires r.Ok? ==> IsRealization(r.value, degrees)
    ensures r.Ok? ==> forall v: nat :: v in r.value <==> v < |degrees| && degrees[v] > 0
    ensures r == Err(EmptyDegSeq) ==> |degrees| == 0 || !NonNegative(degrees)
    ensures |degrees| == 0 ==> r == Err(EmptyDegSeq)
  {
    if r.Ok? {
      RealizationKeys(r.value, degrees);
    }
    if |degrees| > 0 && NonNegative(degrees) {
      InitialInv(degrees);
      ReduceNeverEmpties(degrees, entries, no, map[], mode);
    }
  }
}
