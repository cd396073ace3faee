/**
 * Python's ordering of `str` values and `list.sort` over a list of names,
 * as the collector uses them to put the partial files in order.
 */
module PyStrings {
  import opened Seqs

  /**
   * `a < b` on Python strings: the first differing character decides (by code
   * point), and a proper prefix comes before the longer string.
   */
  predicate LexLess(a: string, b: string)
    ensures a < b ==> LexLess(a, b)
  {
    if a == [] then b != []
    else if b == [] then false
    else if a[0] != b[0] then a[0] < b[0]
    else LexLess(a[1..], b[1..])
  }

  lemma {:induction false} LexLessIrreflexive(a: string)
    ensures !LexLess(a, a)
  {
    if a != [] {
      LexLessIrreflexive(a[1..]);
    }
  }

  lemma {:induction false} LexLessTransitive(a: string, b: string, c: string)
    requires LexLess(a, b) && LexLess(b, c)
    ensures LexLess(a, c)
  {
    if a != [] && b != [] && c != [] && a[0] == b[0] && b[0] == c[0] {
      LexLessTransitive(a[1..], b[1..], c[1..]);
    }
  }

  /** Two different strings are always ordered one way or the other. */
  lemma {:induction false} LexLessTotal(a: string, b: string)
    requires a != b
    ensures LexLess(a, b) || LexLess(b, a)
  {
    if a != [] && b != [] && a[0] == b[0] {
      assert a == [a[0]] + a[1..] && b == [b[0]] + b[1..];
      LexLessTotal(a[1..], b[1..]);
    }
  }

  lemma LexLessAsymmetric(a: string, b: string)
    requires LexLess(a, b)
    ensures !LexLess(b, a)
  {
    if LexLess(b, a) {
      LexLessTransitive(a, b, a);
      LexLessIrreflexive(a);
    }
  }

  /** Appending one common suffix to two equally long strings keeps their order. */
  lemma {:induction false} LexLessCommonSuffix(a: string, b: string, suffix: string)
    requires |a| == |b|
    ensures LexLess(a + suffix, b + suffix) <==> LexLess(a, b)
  {
    if a == [] {
      assert a + suffix == b + suffix;
      LexLessIrreflexive(b + suffix);
    } else {
      assert (a + suffix)[1..] == a[1..] + suffix;
      assert (b + suffix)[1..] == b[1..] + suffix;
      LexLessCommonSuffix(a[1..], b[1..], suffix);
    }
  }

  /** Ascending in Python's order: no later name is smaller than an earlier one. */
  ghost predicate Sorted(s: seq<string>)
  {
    forall i, j :: 0 <= i < j < |s| ==> !LexLess(s[j], s[i])
  }

  /** Strictly ascending in Python's order. */
  ghost predicate StrictlyAscending(s: seq<string>)
  {
    forall i, j :: 0 <= i < j < |s| ==> LexLess(s[i], s[j])
  }

  /** Puts x in front of the first element that is not smaller than it. */
  function Insert(x: string, s: seq<string>): (r: seq<string>)
    ensures multiset(r) == multiset(s) + multiset{x}
  {
    if s == [] then [x]
    else if LexLess(s[0], x) then
      assert s == [s[0]] + s[1..];
      [s[0]] + Insert(x, s[1..])
    else [x] + s
  }

  lemma {:induction false} InsertSorted(x: string, s: seq<string>)
    requires Sorted(s)
    ensures Sorted(Insert(x, s))
  {
    if s == [] {
    } else if LexLess(s[0], x) {
      InsertSorted(x, s[1..]);
      var t := Insert(x, s[1..]);
      forall j | 0 <= j < |t| ensures !LexLess(t[j], s[0]) {
        assert t[j] in multiset(Insert(x, s[1..]));
        if t[j] != x {
          assert t[j] in multiset(s[1..]);
          var k :| 0 <= k < |s[1..]| && s[1..][k] == t[j];
          assert s[k + 1] == t[j];
        } else {
          LexLessAsymmetric(s[0], x);
        }
      }
      SortedCons(s[0], t);
    } else {
      forall j | 0 <= j < |s| ensures !LexLess(s[j], x) {
        if LexLess(s[j], x) && s[j] != s[0] {
          LexLessTotal(s[j], s[0]);
          LexLessTransitive(s[0], s[j], x);
        }
      }
      SortedCons(x, s);
    }
  }

  /** A sorted list stays sorted behind a head no later element is smaller than. */
  lemma SortedCons(h: string, t: seq<string>)
    requires Sorted(t)
    requires forall j :: 0 <= j < |t| ==> !LexLess(t[j], h)
    ensures Sorted([h] + t)
  {
    var r := [h] + t;
    forall i, j | 0 <= i < j < |r| ensures !LexLess(r[j], r[i]) {
      assert r[j] == t[j - 1];
      if i > 0 {
        assert r[i] == t[i - 1];
      }
    }
  }

  /** `files.sort()`: the names in ascending order (an insertion sort). */
  function Sort(s: seq<string>): (r: seq<string>)
    ensures multiset(r) == multiset(s)
    ensures forall x :: x in r <==> x in s
  {
    if s == [] then []
    else
      assert s == s[..|s| - 1] + [s[|s| - 1]];
      var r := Insert(s[|s| - 1], Sort(s[..|s| - 1]));
      SameMembers(r, s);
      r
  }

  lemma {:induction false} SortSorted(s: seq<string>)
    ensures Sorted(Sort(s))
  {
    if s != [] {
      SortSorted(s[..|s| - 1]);
      InsertSorted(s[|s| - 1], Sort(s[..|s| - 1]));
    }
  }

  /** Two sorted lists of the same names start with the same name. */
  lemma SortedHeadsAgree(a: seq<string>, b: seq<string>)
    requires a != [] && Sorted(a) && Sorted(b) && multiset(a) == multiset(b)
    ensures b != [] && a[0] == b[0]
  {
    assert a[0] in multiset(b);
    var k :| 0 <= k < |b| && b[k] == a[0];
    assert b[0] in multiset(a);
    var m :| 0 <= m < |a| && a[m] == b[0];
    assert k == 0 || !LexLess(b[k], b[0]);
    assert m == 0 || !LexLess(a[m], a[0]);
    if a[0] != b[0] {
      LexLessTotal(a[0], b[0]);
    }
  }

  /** Two sorted lists of the same names are the same list: sorting forgets the input order. */
  lemma {:induction false} SortedUnique(a: seq<string>, b: seq<string>)
    requires Sorted(a) && Sorted(b) && multiset(a) == multiset(b)
    ensures a == b
  {
    if a == [] {
      assert |b| == |multiset(b)| == 0;
    } else {
      SortedHeadsAgree(a, b);
      assert a == [a[0]] + a[1..] && b == [b[0]] + b[1..];
      assert multiset(a[1..]) == multiset(b[1..]) by {
        assert multiset(a) == multiset(a[1..]) + multiset{a[0]};
        assert multiset(b) == multiset(b[1..]) + multiset{a[0]};
        MultisetCancel(multiset(a[1..]), multiset(b[1..]), a[0]);
      }
      SortedUnique(a[1..], b[1..]);
    }
  }

  /** Sorting a rearrangement of a strictly ascending list gives back that list. */
  lemma SortRestoresOrder(listing: seq<string>, ordered: seq<string>)
    requires StrictlyAscending(ordered) && multiset(listing) == multiset(ordered)
    ensures Sort(listing) == ordered
  {
    SortSorted(listing);
    forall i, j | 0 <= i < j < |ordered| ensures !LexLess(ordered[j], ordered[i]) {
      LexLessAsymmetric(ordered[i], ordered[j]);
    }
    SortedUnique(Sort(listing), ordered);
  }
}
