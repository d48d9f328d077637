/**
  The shortest-path frontier: a singly-linked list of (vertex, tentative distance)
  entries kept in ascending order of distance by `sortedInsertDijkstra`. The linked
  list is modelled as a sequence, head first.
 */
module Frontier {

  /** One `DijkstraNode`: a vertex id and the distance it was queued with. */
  datatype Entry = Entry(vertex: int, distance: int)

  /** The list can be walked from the smallest distance to the largest. */
  ghost predicate Sorted(f: seq<Entry>) {
    forall i, j :: 0 <= i < j < |f| ==> f[i].distance <= f[j].distance
  }

  /** Where an entry of distance `d` belongs: in front of the first entry whose
      distance is at least `d`, so a newcomer goes AHEAD of equal distances. */
  function InsertionPoint(f: seq<Entry>, d: int): (k: nat)
    ensures k <= |f|
    ensures forall i :: 0 <= i < k ==> f[i].distance < d
    ensures k < |f| ==> f[k].distance >= d
  {
    if |f| == 0 || f[0].distance >= d then 0 else 1 + InsertionPoint(f[1..], d)
  }

  /** `sortedInsertDijkstra` as a recursive list insertion: the new entry becomes
      the head when the list is empty or its head is not closer, otherwise it is
      inserted into the tail. */
  function SortedInsert(f: seq<Entry>, e: Entry): (r: seq<Entry>)
    ensures |r| == |f| + 1
    ensures var k := InsertionPoint(f, e.distance); r == f[..k] + [e] + f[k..]
  {
    if |f| == 0 || f[0].distance >= e.distance then [e] + f
    else
      var rest := SortedInsert(f[1..], e);
      ConsSplice(f, InsertionPoint(f[1..], e.distance), e);
      [f[0]] + rest
  }

  /** Splicing into the tail of a non-empty list is splicing one place further
      into the whole list. */
  lemma ConsSplice(f: seq<Entry>, k: nat, e: Entry)
    requires 0 < |f| && k < |f|
    ensures [f[0]] + (f[1..][..k] + [e] + f[1..][k..]) == f[..k + 1] + [e] + f[k + 1..]
  {
    var a := [f[0]] + (f[1..][..k] + [e] + f[1..][k..]);
    var b := f[..k + 1] + [e] + f[k + 1..];
    assert |a| == |b|;
    forall i | 0 <= i < |a|
      ensures a[i] == b[i]
    {
      if i == 0 {
      } else if i <= k {
        assert a[i] == f[1..][..k][i - 1];
      } else if i == k + 1 {
      } else {
        assert a[i] == f[1..][k..][i - k - 2];
      }
    }
  }

  /** The result holds exactly the old entries plus the new one. */
  lemma SortedInsertPermutes(f: seq<Entry>, e: Entry)
    ensures multiset(SortedInsert(f, e)) == multiset(f) + multiset{e}
  {
    var k := InsertionPoint(f, e.distance);
    var a, b := f[..k], f[k..];
    assert SortedInsert(f, e) == a + [e] + b;
    assert f == a + b;
    assert multiset(a + [e] + b) == multiset(a) + multiset([e]) + multiset(b);
  }

  /** An entry is in the result exactly when it is the new one or was there before. */
  lemma SortedInsertMembers(f: seq<Entry>, e: Entry)
    ensures forall y :: y in SortedInsert(f, e) <==> y == e || y in f
  {
    SortedInsertPermutes(f, e);
    forall y
      ensures y in SortedInsert(f, e) <==> y == e || y in f
    {
      assert y in SortedInsert(f, e) <==> y in multiset(SortedInsert(f, e));
      assert y in f <==> y in multiset(f);
    }
  }

  /** A lower bound on every distance survives the insertion of a farther entry. */
  lemma {:induction false} SortedInsertBounded(f: seq<Entry>, e: Entry, m: int)
    requires forall i :: 0 <= i < |f| ==> m <= f[i].distance
    requires m <= e.distance
    ensures forall i :: 0 <= i < |SortedInsert(f, e)| ==> m <= SortedInsert(f, e)[i].distance
  {
    if |f| == 0 || f[0].distance >= e.distance {
    } else {
      SortedInsertBounded(f[1..], e, m);
    }
  }

  /** Inserting into a sorted frontier keeps it sorted. */
  lemma {:induction false} SortedInsertSorted(f: seq<Entry>, e: Entry)
    requires Sorted(f)
    ensures Sorted(SortedInsert(f, e))
  {
    if |f| == 0 || f[0].distance >= e.distance {
    } else {
      var rest := SortedInsert(f[1..], e);
      SortedInsertSorted(f[1..], e);
      SortedInsertBounded(f[1..], e, f[0].distance);
      ConsSorted(f[0], rest);
    }
  }

  lemma ConsSorted(x: Entry, s: seq<Entry>)
    requires Sorted(s)
    requires forall i :: 0 <= i < |s| ==> x.distance <= s[i].distance
    ensures Sorted([x] + s)
  {
    var r := [x] + s;
    forall i, j | 0 <= i < j < |r|
      ensures r[i].distance <= r[j].distance
    {
      assert r[j] == s[j - 1];
      if i > 0 {
        assert r[i] == s[i - 1];
      }
    }
  }

  /** `sortedInsertDijkstra` as written: test the head, otherwise walk a `current`
      cursor while the next entry is strictly closer, and splice after it. */
  method SortedInsertScan(f: seq<Entry>, e: Entry) returns (r: seq<Entry>)
    ensures r == SortedInsert(f, e)
  {
    if |f| == 0 || f[0].distance >= e.distance {
      r := [e] + f;
    } else {
      var current := 0;
      while current + 1 < |f| && f[current + 1].distance < e.distance
        invariant 0 <= current < |f|
        invariant forall i :: 0 <= i <= current ==> f[i].distance < e.distance
        decreases |f| - current
      {
        current := current + 1;
      }
      assert InsertionPoint(f, e.distance) == current + 1 by {
        InsertionPointUnique(f, e.distance, current + 1);
      }
      r := f[..current + 1] + [e] + f[current + 1..];
    }
  }

  /** Any index with only closer entries in front and a not-closer entry (or the
      end) at it is the insertion point. */
  lemma {:induction false} InsertionPointUnique(f: seq<Entry>, d: int, k: nat)
    requires k <= |f|
    requires forall i :: 0 <= i < k ==> f[i].distance < d
    requires k < |f| ==> f[k].distance >= d
    ensures InsertionPoint(f, d) == k
  {
    if k == 0 {
    } else {
      InsertionPointUnique(f[1..], d, k - 1);
    }
  }
}
