/**
 * Pair-space partitioning of the correlation run: the number of unordered
 * sample pairs, the boundary positions `pos_array`, the worker index set and
 * the half-open position range each worker is given.
 *
 * `np.linspace(0, T, P)` followed by a cast to `int` is modelled with exact
 * integer division: boundary k is `k * T / (P - 1)`.
 */
module Partition {

  /** `n_samples*(n_samples-1)//2`, the number of unordered pairs of samples. */
  function TotalPairs(nSamples: nat): (t: nat)
    ensures 2 * t == nSamples * (nSamples - 1)
  {
    assert nSamples * (nSamples - 1) >= 0 by {
      if nSamples > 0 { MulNonNegative(nSamples, nSamples - 1); }
    }
    ProductOfNeighboursEven(nSamples);
    nSamples * (nSamples - 1) / 2
  }

  /** n * (n - 1) is even, so the floor division of line 47 is exact. */
  lemma {:induction false} ProductOfNeighboursEven(n: nat)
    ensures n * (n - 1) % 2 == 0
  {
    if n > 1 {
      ProductOfNeighboursEven(n - 1);
      assert n * (n - 1) == (n - 1) * (n - 2) + 2 * (n - 1);
    }
  }

  /** Adding a sample adds one pair with each earlier sample. */
  lemma TotalPairsStep(n: nat)
    requires n >= 1
    ensures TotalPairs(n) == TotalPairs(n - 1) + (n - 1)
  {
    assert n * (n - 1) == (n - 1) * (n - 2) + 2 * (n - 1);
  }

  lemma MulNonNegative(a: nat, b: nat)
    ensures a * b >= 0
  {
  }

  /** The pairs (i, j) with 0 <= i < j < n. */
  ghost function Pairs(n: nat): set<(nat, nat)>
  {
    set i: nat, j: nat | i < j < n :: (i, j)
  }

  /** The pairs whose larger index is j and whose smaller index is below m. */
  ghost function Column(m: nat, j: nat): set<(nat, nat)>
  {
    set i: nat | i < m :: (i, j)
  }

  lemma {:induction false} ColumnSize(m: nat, j: nat)
    ensures |Column(m, j)| == m
  {
    if m > 0 {
      ColumnSize(m - 1, j);
      assert Column(m, j) == Column(m - 1, j) + {(m - 1, j)};
    }
  }

  /** The total of line 47 is exactly the number of unordered pairs. */
  lemma {:induction false} PairCount(n: nat)
    ensures |Pairs(n)| == TotalPairs(n)
  {
    if n > 0 {
      PairCount(n - 1);
      TotalPairsStep(n);
      ColumnSize(n - 1, n - 1);
      assert Pairs(n) == Pairs(n - 1) + Column(n - 1, n - 1);
      assert Pairs(n - 1) !! Column(n - 1, n - 1);
    }
  }

  /** Non-decreasing: every earlier entry is at most every later one. */
  ghost predicate Monotone(pos: seq<nat>)
  {
    forall i, j :: 0 <= i <= j < |pos| ==> pos[i] <= pos[j]
  }

  lemma MulMonotone(a: int, b: int, t: nat)
    requires a <= b
    ensures a * t <= b * t
  {
    MulNonNegative(b - a, t);
  }

  /** Division by a positive divisor is determined by any quotient/remainder split. */
  lemma DivUnique(x: int, d: int, q: int, r: int)
    requires d > 0 && 0 <= r < d && x == q * d + r
    ensures x / d == q
  {
    var q' := x / d;
    if q' < q {
      MulMonotone(q' + 1, q, d);
    } else if q' > q {
      MulMonotone(q + 1, q', d);
    }
  }

  lemma DivMonotone(a: nat, b: nat, d: nat)
    requires a <= b && d > 0
    ensures a / d <= b / d
  {
    var qa, qb := a / d, b / d;
    if qa > qb {
      MulMonotone(qb + 1, qa, d);
    }
  }

  /** `(k * d) / d == k`. */
  lemma MulDivCancel(k: nat, d: nat)
    requires d > 0
    ensures k * d / d == k
  {
    DivUnique(k * d, d, k, 0);
  }

  /** `int(k * T / (P - 1))`, one entry of `pos_array` for P >= 2. */
  function Boundary(k: nat, total: nat, nProcesses: nat): (b: nat)
    requires nProcesses >= 2 && k < nProcesses
    ensures b <= total
    ensures k == 0 ==> b == 0
    ensures k == nProcesses - 1 ==> b == total
  {
    MulNonNegative(k, total);
    MulMonotone(k, nProcesses - 1, total);
    DivMonotone(k * total, (nProcesses - 1) * total, nProcesses - 1);
    assert (nProcesses - 1) * total == total * (nProcesses - 1);
    MulDivCancel(total, nProcesses - 1);
    k * total / (nProcesses - 1)
  }

  lemma BoundaryMonotone(k1: nat, k2: nat, total: nat, nProcesses: nat)
    requires nProcesses >= 2 && k1 <= k2 < nProcesses
    ensures Boundary(k1, total, nProcesses) <= Boundary(k2, total, nProcesses)
  {
    MulMonotone(k1, k2, total);
    DivMonotone(k1 * total, k2 * total, nProcesses - 1);
  }

  /**
   * `pos_array` (line 47): `np.linspace(0, T, nProcesses)` cast to int.
   * linspace yields no point for num = 0 and only the start for num = 1.
   */
  function PosArray(nSamples: nat, nProcesses: nat): (pos: seq<nat>)
    ensures |pos| == nProcesses
    ensures nProcesses >= 1 ==> pos[0] == 0
    ensures nProcesses >= 2 ==> pos[nProcesses - 1] == TotalPairs(nSamples)
    ensures forall k :: 0 <= k < |pos| ==> pos[k] <= TotalPairs(nSamples)
    ensures Monotone(pos)
  {
    var total := TotalPairs(nSamples);
    if nProcesses <= 1 then
      seq(nProcesses, k => 0)
    else
      var pos := seq(nProcesses, k requires 0 <= k < nProcesses => Boundary(k, total, nProcesses));
      assert Monotone(pos) by {
        forall i, j | 0 <= i <= j < |pos| ensures pos[i] <= pos[j] {
          BoundaryMonotone(i, j, total, nProcesses);
        }
      }
      pos
  }

  /**
   * `np.arange(0, n_processes - 1)` (line 67): the indices of the dispatched
   * workers. Each one has a successor inside `pos_array`, so `pos_array[i+1]`
   * (line 53) is always defined.
   */
  function WorkerIndices(nProcesses: nat): (ix: seq<nat>)
    ensures |ix| == if nProcesses >= 1 then nProcesses - 1 else 0
    ensures forall k :: 0 <= k < |ix| ==> ix[k] == k && ix[k] + 1 < nProcesses
    ensures forall i: nat :: i in ix <==> i + 1 < nProcesses
  {
    if nProcesses <= 1 then []
    else
      var ix: seq<nat> := seq(nProcesses - 1, k requires 0 <= k => k);
      assert forall i: nat | i + 1 < nProcesses :: i in ix by {
        forall i: nat | i + 1 < nProcesses ensures i in ix { assert ix[i] == i; }
      }
      ix
  }

  /** `(pos_array[i], pos_array[i+1])`, the position range of worker i (lines 52-53). */
  function WorkerRange(nSamples: nat, nProcesses: nat, i: nat): (r: (nat, nat))
    requires i + 1 < nProcesses
    ensures r.0 <= r.1 <= TotalPairs(nSamples)
  {
    var pos := PosArray(nSamples, nProcesses);
    (pos[i], pos[i + 1])
  }

  /** Position x falls in worker i's half-open range. */
  predicate Owns(nSamples: nat, nProcesses: nat, i: nat, x: nat)
  {
    i + 1 < nProcesses && WorkerRange(nSamples, nProcesses, i).0 <= x < WorkerRange(nSamples, nProcesses, i).1
  }

  /** Any sequence whose ends bracket x has a step that contains x. */
  lemma {:induction false} StepContaining(pos: seq<nat>, x: nat)
    requires |pos| >= 2 && pos[0] <= x < pos[|pos| - 1]
    ensures exists i :: 0 <= i < |pos| - 1 && pos[i] <= x < pos[i + 1]
  {
    var last := |pos| - 1;
    if x >= pos[last - 1] {
      assert pos[last - 1] <= x < pos[last];
    } else {
      StepContaining(pos[..last], x);
      var i :| 0 <= i < last - 1 && pos[..last][i] <= x < pos[..last][i + 1];
      assert pos[i] <= x < pos[i + 1];
    }
  }

  /**
   * The worker ranges cover exactly [0, T): a position is owned by some
   * dispatched worker if and only if it is below T.
   */
  lemma RangesCoverAllPositions(nSamples: nat, nProcesses: nat, x: nat)
    requires nProcesses >= 2
    ensures (exists i :: Owns(nSamples, nProcesses, i, x)) <==> x < TotalPairs(nSamples)
  {
    var pos := PosArray(nSamples, nProcesses);
    if x < TotalPairs(nSamples) {
      StepContaining(pos, x);
      var i :| 0 <= i < |pos| - 1 && pos[i] <= x < pos[i + 1];
      assert Owns(nSamples, nProcesses, i, x);
    }
  }

  /** No position is owned by two workers. */
  lemma OwnerUnique(nSamples: nat, nProcesses: nat, i: nat, j: nat, x: nat)
    requires Owns(nSamples, nProcesses, i, x) && Owns(nSamples, nProcesses, j, x)
    ensures i == j
  {
  }

  /** Earlier workers' ranges end where later ones begin or before; neighbours share an endpoint. */
  lemma RangesOrdered(nSamples: nat, nProcesses: nat, i: nat, j: nat)
    requires i < j && j + 1 < nProcesses
    ensures WorkerRange(nSamples, nProcesses, i).1 <= WorkerRange(nSamples, nProcesses, j).0
    ensures j == i + 1 ==> WorkerRange(nSamples, nProcesses, i).1 == WorkerRange(nSamples, nProcesses, j).0
  {
  }

  /** The number of positions in each worker's range, in worker order. */
  function RangeLengths(nSamples: nat, nProcesses: nat): seq<nat>
  {
    if nProcesses <= 1 then []
    else
      seq(nProcesses - 1, i requires 0 <= i < nProcesses - 1 =>
        WorkerRange(nSamples, nProcesses, i).1 - WorkerRange(nSamples, nProcesses, i).0)
  }

  function Sum(s: seq<nat>): nat
  {
    if s == [] then 0 else Sum(s[..|s| - 1]) + s[|s| - 1]
  }

  lemma {:induction false} PrefixSumTelescopes(nSamples: nat, nProcesses: nat, k: nat)
    requires nProcesses >= 2 && k < nProcesses
    ensures Sum(RangeLengths(nSamples, nProcesses)[..k]) == PosArray(nSamples, nProcesses)[k]
  {
    var lens := RangeLengths(nSamples, nProcesses);
    if k > 0 {
      PrefixSumTelescopes(nSamples, nProcesses, k - 1);
      assert lens[..k][..k - 1] == lens[..k - 1];
    }
  }

  /** The worker range lengths add up to T: every position is computed once. */
  lemma RangeLengthsSumToTotal(nSamples: nat, nProcesses: nat)
    requires nProcesses >= 2
    ensures Sum(RangeLengths(nSamples, nProcesses)) == TotalPairs(nSamples)
  {
    var lens := RangeLengths(nSamples, nProcesses);
    PrefixSumTelescopes(nSamples, nProcesses, nProcesses - 1);
    assert lens[..nProcesses - 1] == lens;
  }

  lemma {:induction false} SumAtLeastLength(s: seq<nat>)
    requires forall k :: 0 <= k < |s| ==> s[k] >= 1
    ensures Sum(s) >= |s|
  {
    if s != [] {
      SumAtLeastLength(s[..|s| - 1]);
    }
  }

  lemma DivStep(a: nat, d: nat)
    requires d > 0
    ensures (a + d) / d == a / d + 1
  {
    DivUnique(a + d, d, a / d + 1, a % d);
  }

  /** With at least one position per worker, every range is non-empty. */
  lemma NonEmptyWhenEnoughPairs(nSamples: nat, nProcesses: nat, i: nat)
    requires i + 1 < nProcesses && nProcesses - 1 <= TotalPairs(nSamples)
    ensures WorkerRange(nSamples, nProcesses, i).0 < WorkerRange(nSamples, nProcesses, i).1
  {
    var t, d := TotalPairs(nSamples), nProcesses - 1;
    assert (i + 1) * t == i * t + t;
    MulNonNegative(i, t);
    DivMonotone(i * t + d, (i + 1) * t, d);
    DivStep(i * t, d);
  }

  /** Some worker gets an empty range if and only if there are fewer pairs than workers. */
  lemma EmptyRangeIff(nSamples: nat, nProcesses: nat)
    requires nProcesses >= 2
    ensures (exists i: nat :: i + 1 < nProcesses &&
              WorkerRange(nSamples, nProcesses, i).0 == WorkerRange(nSamples, nProcesses, i).1)
            <==> TotalPairs(nSamples) < nProcesses - 1
  {
    var lens := RangeLengths(nSamples, nProcesses);
    if TotalPairs(nSamples) < nProcesses - 1 {
      RangeLengthsSumToTotal(nSamples, nProcesses);
      if forall k :: 0 <= k < |lens| ==> lens[k] >= 1 {
        SumAtLeastLength(lens);
        assert false;
      }
      var k :| 0 <= k < |lens| && lens[k] < 1;
      assert WorkerRange(nSamples, nProcesses, k).0 == WorkerRange(nSamples, nProcesses, k).1;
    } else {
      forall i: nat | i + 1 < nProcesses
        ensures WorkerRange(nSamples, nProcesses, i).0 < WorkerRange(nSamples, nProcesses, i).1
      {
        NonEmptyWhenEnoughPairs(nSamples, nProcesses, i);
      }
    }
  }

  /**
   * With at most one process `np.arange(0, n_processes - 1)` is empty: no
   * worker is dispatched and no position is computed, whatever T is.
   */
  lemma NoWorkersBelowTwo(nSamples: nat, nProcesses: nat, i: nat, x: nat)
    requires nProcesses <= 1
    ensures WorkerIndices(nProcesses) == []
    ensures !Owns(nSamples, nProcesses, i, x)
  {
  }
}
