/** Python's `sorted(..., key = remaining degree)` and its `reverse=True`
    form, as a stable insertion sort: entries with equal remaining degree
    keep the order they had before the sort. */
module Sorting {
  import opened Entries

  /** The sort key: the remaining degree, negated for a descending sort. */
  function Key(e: Entry, descending: bool): int
  {
    if descending then -e.rem else e.rem
  }

  ghost predicate Ordered(s: seq<Entry>, descending: bool)
  {
    forall i, j | 0 <= i < j < |s| :: Key(s[i], descending) <= Key(s[j], descending)
  }

  /** list.remove closes the gap it leaves: the entries before the removed
      one stay where they were, and those after it move up by one, so the
      others keep their relative order. */
  lemma RemoveKeepsRest(s: seq<Entry>, x: Entry)
    requires x in s
    ensures forall j | 0 <= j < |Remove(s, x)| :: Remove(s, x)[j] == if j < IndexOf(s, x) then s[j] else s[j + 1]
  {
    var k := IndexOf(s, x);
    assert Remove(s, x) == s[..k] + s[k + 1..];
  }

  /** list.remove keeps the order of the entries it leaves, so a sorted
      list stays sorted. */
  lemma RemoveKeepsOrdered(s: seq<Entry>, x: Entry, descending: bool)
    requires x in s && Ordered(s, descending)
    ensures Ordered(Remove(s, x), descending)
  {
    DropKeepsOrdered(s, IndexOf(s, x), descending);
  }

  /** Dropping position k leaves the other entries in their order. */
  lemma DropKeepsOrdered(s: seq<Entry>, k: nat, descending: bool)
    requires k < |s| && Ordered(s, descending)
    ensures Ordered(s[..k] + s[k + 1..], descending)
  {
    var r := s[..k] + s[k + 1..];
    forall i, j | 0 <= i < j < |r| ensures Key(r[i], descending) <= Key(r[j], descending) {
      var i' := if i < k then i else i + 1;
      var j' := if j < k then j else j + 1;
      assert r[i] == s[i'] && r[j] == s[j'];
    }
  }

  /** Inserts `x` before the first entry whose key is not smaller than its
      own, so `x` stays ahead of every entry with the same key. */
  function Insert(x: Entry, s: seq<Entry>, descending: bool): (r: seq<Entry>)
    requires Ordered(s, descending)
    ensures Ordered(r, descending)
    ensures multiset(r) == multiset(s) + multiset{x}
  {
    if s == [] || Key(x, descending) <= Key(s[0], descending) then [x] + s
    else
      OrderedTail(s, descending);
      var t := Insert(x, s[1..], descending);
      HeadStaysFirst(s, x, t, descending);
      assert s == [s[0]] + s[1..];
      [s[0]] + t
  }

  /** The head of an ordered list, ahead of `x`, stays ahead of the tail
      with `x` inserted. */
  lemma HeadStaysFirst(s: seq<Entry>, x: Entry, t: seq<Entry>, descending: bool)
    requires Ordered(s, descending) && s != [] && Key(s[0], descending) < Key(x, descending)
    requires Ordered(t, descending) && multiset(t) == multiset(s[1..]) + multiset{x}
    ensures Ordered([s[0]] + t, descending)
  {
    forall y | y in t ensures Key(s[0], descending) <= Key(y, descending) {
      assert y in multiset(t);
      if y != x {
        assert y in multiset(s[1..]);
        var k :| 0 <= k < |s[1..]| && s[1..][k] == y;
        assert s[k + 1] == y;
      }
    }
    OrderedCons(s[0], t, descending);
  }

  lemma OrderedTail(s: seq<Entry>, descending: bool)
    requires Ordered(s, descending) && s != []
    ensures Ordered(s[1..], descending)
  {
    forall i, j | 0 <= i < j < |s[1..]|
      ensures Key(s[1..][i], descending) <= Key(s[1..][j], descending)
    {
      assert s[1..][i] == s[i + 1] && s[1..][j] == s[j + 1];
    }
  }

  lemma OrderedCons(y: Entry, t: seq<Entry>, descending: bool)
    requires Ordered(t, descending)
    requires forall z | z in t :: Key(y, descending) <= Key(z, descending)
    ensures Ordered([y] + t, descending)
  {
    var r := [y] + t;
    forall i, j | 0 <= i < j < |r| ensures Key(r[i], descending) <= Key(r[j], descending) {
      assert r[j] == t[j - 1];
      if i > 0 { assert r[i] == t[i - 1]; }
    }
  }

  function Sort(s: seq<Entry>, descending: bool): (r: seq<Entry>)
    ensures Ordered(r, descending)
    ensures multiset(r) == multiset(s) && |r| == |s|
  {
    if s == [] then []
    else
      assert s == [s[0]] + s[1..];
      var r := Insert(s[0], Sort(s[1..], descending), descending);
      assert |multiset(r)| == |r|;
      r
  }

  /** Sorting a list that is already in order leaves it as it is. */
  lemma {:induction false} SortOrdered(s: seq<Entry>, descending: bool)
    requires Ordered(s, descending)
    ensures Sort(s, descending) == s
  {
    if s != [] {
      OrderedTail(s, descending);
      SortOrdered(s[1..], descending);
      assert s == [s[0]] + s[1..];
    }
  }

  /** The subsequence of the entries whose remaining degree is `d`. */
  function WithRem(s: seq<Entry>, d: int): seq<Entry>
  {
    if s == [] then [] else (if s[0].rem == d then [s[0]] else []) + WithRem(s[1..], d)
  }

  lemma WithRemCons(y: Entry, t: seq<Entry>, d: int)
    ensures WithRem([y] + t, d) == (if y.rem == d then [y] else []) + WithRem(t, d)
  {
    assert ([y] + t)[0] == y && ([y] + t)[1..] == t;
  }

  lemma {:induction false} InsertKeepsTies(x: Entry, s: seq<Entry>, descending: bool, d: int)
    requires Ordered(s, descending)
    ensures WithRem(Insert(x, s, descending), d) == (if x.rem == d then [x] else []) + WithRem(s, d)
  {
    if s == [] || Key(x, descending) <= Key(s[0], descending) {
      WithRemCons(x, s, d);
    } else {
      assert s[0].rem != x.rem;
      OrderedTail(s, descending);
      InsertKeepsTies(x, s[1..], descending, d);
      WithRemCons(s[0], Insert(x, s[1..], descending), d);
      WithRemCons(s[0], s[1..], d);
      assert s == [s[0]] + s[1..];
    }
  }

  /** Stability: for every remaining degree `d`, the entries with that
      degree appear in the sorted list in the order they had before. */
  lemma {:induction false} SortIsStable(s: seq<Entry>, descending: bool, d: int)
    ensures WithRem(Sort(s, descending), d) == WithRem(s, d)
  {
    if s != [] {
      SortIsStable(s[1..], descending, d);
      InsertKeepsTies(s[0], Sort(s[1..], descending), descending, d);
    }
  }
}
