/** The (node id, remaining degree) pairs of the realizer, and the two list
    operations it applies to them: `remove` and `index`. */
module Entries {

  /** A node id paired with the degree it still has to receive. */
  datatype Entry = Entry(id: nat, rem: int)

  /** No two positions of `s` carry the same node id. */
  ghost predicate UniqueIds(s: seq<Entry>)
  {
    forall i, j | 0 <= i < |s| && 0 <= j < |s| && s[i].id == s[j].id :: i == j
  }

  /** The ids of the entries of `s`. */
  ghost function IdSet(s: seq<Entry>): set<nat>
  {
    set e | e in s :: e.id
  }

  /** list.index: the position of the first entry equal to `x`. */
  function IndexOf(s: seq<Entry>, x: Entry): (k: nat)
    requires x in s
    ensures k < |s| && s[k] == x && x !in s[..k]
  {
    if s[0] == x then 0
    else
      var k := 1 + IndexOf(s[1..], x);
      assert s[..k] == [s[0]] + s[1..][..k - 1];
      k
  }

  /** list.remove: drops the first entry equal to `x`, found as list.index
      finds it. */
  function Remove(s: seq<Entry>, x: Entry): (r: seq<Entry>)
    requires x in s
    ensures |r| == |s| - 1
    ensures multiset(r) == multiset(s) - multiset{x}
  {
    var k := IndexOf(s, x);
    assert s == s[..k] + [s[k]] + s[k + 1..];
    s[..k] + s[k + 1..]
  }

  /** An entry occurring twice at two positions occurs twice in the multiset. */
  lemma TwoCopies(s: seq<Entry>, i: int, j: int)
    requires 0 <= i < j < |s| && s[i] == s[j]
    ensures multiset(s)[s[i]] >= 2
  {
    assert s == s[..j] + [s[j]] + s[j + 1..];
    assert s[..j][i] == s[i];
    assert s[i] in multiset(s[..j]);
  }

  /** With unique ids, no entry occurs twice. */
  lemma {:induction false} UniqueIdsCounts(s: seq<Entry>)
    requires UniqueIds(s)
    ensures forall e :: multiset(s)[e] <= 1
  {
    if s != [] {
      var t := s[1..];
      assert UniqueIds(t) by {
        forall i, j | 0 <= i < |t| && 0 <= j < |t| && t[i].id == t[j].id ensures i == j {
          assert s[i + 1].id == s[j + 1].id;
        }
      }
      UniqueIdsCounts(t);
      assert s == [s[0]] + t;
      forall k | 0 <= k < |t| ensures t[k].id != s[0].id {
        assert t[k] == s[k + 1];
      }
      assert multiset(s) == multiset{s[0]} + multiset(t);
    }
  }

  /** Any sub-multiset of a list with unique ids, in any order, has unique
      ids: this covers a re-sort and a removal. */
  lemma UniqueIdsSub(a: seq<Entry>, b: seq<Entry>)
    requires UniqueIds(a) && multiset(b) <= multiset(a)
    ensures UniqueIds(b)
  {
    UniqueIdsCounts(a);
    forall i, j | 0 <= i < |b| && 0 <= j < |b| && i != j ensures b[i].id != b[j].id {
      if b[i] == b[j] {
        if i < j { TwoCopies(b, i, j); } else { TwoCopies(b, j, i); }
        assert false;
      } else {
        assert b[i] in multiset(b) && b[j] in multiset(b);
        assert b[i] in a && b[j] in a;
        var p :| 0 <= p < |a| && a[p] == b[i];
        var q :| 0 <= q < |a| && a[q] == b[j];
        assert p != q;
      }
    }
  }

  /** With unique ids two different entries have different ids. */
  lemma DistinctIds(s: seq<Entry>, x: Entry, y: Entry)
    requires UniqueIds(s) && x in s && y in s && x != y
    ensures x.id != y.id
  {
    var p :| 0 <= p < |s| && s[p] == x;
    var q :| 0 <= q < |s| && s[q] == y;
    assert p != q;
  }
}
