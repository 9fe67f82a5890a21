/** The members roster and the sampling of winners from it. */
module Roster {

  /** One row of the members sheet: the cell values, treated as an immutable value. */
  datatype Participant = Participant(cells: seq<string>)

  /** No value occurs twice in `s`. */
  predicate Distinct<T(==)>(s: seq<T>)
  {
    forall i, j :: 0 <= i < j < |s| ==> s[i] != s[j]
  }

  /** The bounds of the count widget: at least one winner, at most the whole roster. */
  predicate ValidCount(count: int, size: nat)
  {
    1 <= count <= size
  }

  /** `rows` names pairwise distinct rows of a roster of `size` rows. */
  predicate IsRowSelection(rows: seq<nat>, size: nat)
  {
    && Distinct(rows)
    && forall i :: 0 <= i < |rows| ==> rows[i] < size
  }

  /** `order` lists every row of a roster of `size` rows exactly once: the random ordering
      a sample without replacement takes its leading rows from. */
  predicate IsRowOrdering(order: seq<nat>, size: nat)
  {
    |order| == size && IsRowSelection(order, size)
  }

  /** The rows at the given positions, in the order the positions are listed. */
  function Pick(members: seq<Participant>, rows: seq<nat>): (w: seq<Participant>)
    requires forall i :: 0 <= i < |rows| ==> rows[i] < |members|
    ensures |w| == |rows|
    ensures forall i :: 0 <= i < |rows| ==> w[i] == members[rows[i]]
  {
    if rows == [] then []
    else [members[rows[0]]] + Pick(members, rows[1..])
  }

  /** `w` is a sample without replacement of `members`: its entries are the rows at pairwise
      distinct positions of the roster. */
  ghost predicate IsSampleOf(w: seq<Participant>, members: seq<Participant>)
  {
    exists rows :: IsRowSelection(rows, |members|) && |rows| == |w| && Pick(members, rows) == w
  }

  /** Positions that all lie in a prefix of the roster pick the same rows from that prefix. */
  lemma PickFromPrefix(members: seq<Participant>, n: nat, rows: seq<nat>)
    requires n <= |members|
    requires forall i :: 0 <= i < |rows| ==> rows[i] < n
    ensures Pick(members, rows) == Pick(members[..n], rows)
  {
  }

  /** Removing the row at position `p` from a selection whose largest possible row is
      `rows[p]` leaves a selection from the rows below it. */
  lemma DropLastRow(rows: seq<nat>, p: nat, last: nat)
    requires IsRowSelection(rows, last + 1)
    requires p < |rows| && rows[p] == last
    ensures IsRowSelection(rows[..p] + rows[p+1..], last)
  {
  }

  /** Taking the row at position `p` out of the position list takes exactly its participant
      out of the picked rows. */
  lemma {:induction false} PickRemove(members: seq<Participant>, rows: seq<nat>, p: nat)
    requires forall i :: 0 <= i < |rows| ==> rows[i] < |members|
    requires p < |rows|
    ensures multiset(Pick(members, rows))
         == multiset(Pick(members, rows[..p] + rows[p+1..])) + multiset{members[rows[p]]}
    decreases p
  {
    var rest := rows[..p] + rows[p+1..];
    if p == 0 {
      assert rest == rows[1..];
    } else {
      var tail := rows[1..];
      assert tail[..p-1] + tail[p..] == rest[1..];
      assert rest[0] == rows[0];
      PickRemove(members, tail, p - 1);
    }
  }

  /** The rows at pairwise distinct positions form a sub-multiset of the roster: no
      participant is drawn more often than it occurs in the roster. */
  lemma {:induction false} PickSubMultiset(members: seq<Participant>, rows: seq<nat>)
    requires IsRowSelection(rows, |members|)
    ensures multiset(Pick(members, rows)) <= multiset(members)
    decreases |members|
  {
    if |members| == 0 {
    } else {
      var last := |members| - 1;
      var front := members[..last];
      assert members == front + [members[last]];
      if last in rows {
        var p :| 0 <= p < |rows| && rows[p] == last;
        var rest := rows[..p] + rows[p+1..];
        DropLastRow(rows, p, last);
        PickRemove(members, rows, p);
        PickFromPrefix(members, last, rest);
        PickSubMultiset(front, rest);
      } else {
        assert IsRowSelection(rows, last) by {
          forall i | 0 <= i < |rows|
            ensures rows[i] < last
          {
            assert rows[i] != last;
          }
        }
        PickFromPrefix(members, last, rows);
        PickSubMultiset(front, rows);
      }
    }
  }

  /** A sub-multiset is no larger than the multiset containing it. */
  lemma SubMultisetSize<T>(a: multiset<T>, b: multiset<T>)
    requires a <= b
    ensures |a| <= |b|
  {
    assert b == a + (b - a);
  }

  /** A multiset contained in another of the same size equals it. */
  lemma SubMultisetOfSameSize<T>(a: multiset<T>, b: multiset<T>)
    requires a <= b
    requires |a| == |b|
    ensures a == b
  {
    assert b == a + (b - a);
    assert |b - a| == 0;
  }

  /** Facts every sample without replacement has: each winner is a roster member, no
      participant is drawn more often than it is listed, winners of a roster without repeated
      rows are pairwise distinct, and a sample of the whole roster is a reordering of it. */
  lemma SampleFacts(w: seq<Participant>, members: seq<Participant>)
    requires IsSampleOf(w, members)
    ensures |w| <= |members|
    ensures forall i :: 0 <= i < |w| ==> w[i] in members
    ensures multiset(w) <= multiset(members)
    ensures Distinct(members) ==> Distinct(w)
    ensures |w| == |members| ==> multiset(w) == multiset(members)
  {
    var rows :| IsRowSelection(rows, |members|) && |rows| == |w| && Pick(members, rows) == w;
    PickSubMultiset(members, rows);
    SubMultisetSize(multiset(w), multiset(members));
    forall i | 0 <= i < |w|
      ensures w[i] in members
    {
      assert w[i] == members[rows[i]];
    }
    if Distinct(members) {
      forall i, j | 0 <= i < j < |w|
        ensures w[i] != w[j]
      {
        assert rows[i] != rows[j];
        assert w[i] == members[rows[i]] && w[j] == members[rows[j]];
      }
    }
    if |w| == |members| {
      SubMultisetOfSameSize(multiset(w), multiset(members));
    }
  }
}
