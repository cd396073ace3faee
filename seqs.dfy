/**
 * Facts about sequences that the name listing and the shuffle both rely on:
 * duplicate-free lists, removing one element, and membership versus
 * multiset equality.
 */
module Seqs {

  lemma SameMembers<T>(a: seq<T>, b: seq<T>)
    requires multiset(a) == multiset(b)
    ensures forall x :: x in a <==> x in b
  {
    forall x ensures x in a <==> x in b {
      assert x in a <==> x in multiset(a);
      assert x in b <==> x in multiset(b);
    }
  }

  lemma MultisetCancel<T>(m: multiset<T>, n: multiset<T>, x: T)
    requires m + multiset{x} == n + multiset{x}
    ensures m == n
  {
    forall y ensures m[y] == n[y] {
      assert (m + multiset{x})[y] == (n + multiset{x})[y];
    }
  }

  /** No element occurs twice. */
  ghost predicate Distinct<T>(s: seq<T>)
  {
    forall i, j :: 0 <= i < j < |s| ==> s[i] != s[j]
  }

  /** The list without its element at position k. */
  function Without<T>(b: seq<T>, k: nat): (r: seq<T>)
    requires k < |b|
    ensures |r| == |b| - 1
    ensures multiset(b) == multiset(r) + multiset{b[k]}
  {
    assert b == b[..k] + [b[k]] + b[k + 1..];
    b[..k] + b[k + 1..]
  }

  /** Removing the element at position k from a duplicate-free list removes exactly that element. */
  lemma RemoveAt<T>(b: seq<T>, k: nat)
    requires Distinct(b) && k < |b|
    ensures Distinct(Without(b, k))
    ensures forall y :: y in Without(b, k) <==> y in b && y != b[k]
  {
    var b' := Without(b, k);
    assert forall i :: 0 <= i < |b'| ==> b'[i] == b[if i < k then i else i + 1];
    forall y | y in b && y != b[k] ensures y in b' {
      var j :| 0 <= j < |b| && b[j] == y;
      assert b'[if j < k then j else j - 1] == y;
    }
  }

  lemma HeadIsMember<T>(b: seq<T>)
    ensures b != [] ==> b[0] in b
  {
  }

  /** Two duplicate-free lists with the same members are rearrangements of each other. */
  lemma {:induction false} DistinctSameMembers<T>(a: seq<T>, b: seq<T>)
    requires Distinct(a) && Distinct(b)
    requires forall x :: x in a <==> x in b
    ensures multiset(a) == multiset(b)
  {
    if a != [] {
      var x := a[0];
      assert x in b by { assert x in a; }
      var k :| 0 <= k < |b| && b[k] == x;
      RemoveAt(a, 0);
      RemoveAt(b, k);
      DistinctSameMembers(Without(a, 0), Without(b, k));
      assert multiset(a) == multiset(Without(a, 0)) + multiset{x};
      assert multiset(b) == multiset(Without(b, k)) + multiset{x};
    } else {
      HeadIsMember(b);
    }
  }
}
