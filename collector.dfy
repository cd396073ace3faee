/**
 * Dispatch of the workers and collection of their partial edge tables
 * (pairwise_correlations.py, lines 50-83).
 *
 * The pool runs `create_ei` once per worker index, in an order the model takes
 * as an input; each run stores the edge table of its position range under its
 * padded file name. The collector lists the directory, sorts the names and
 * appends the tables one after the other into the store.
 */
module Collector {
  import opened Partition
  import opened PyStrings
  import opened Seqs
  import opened PartNames

  /** One row of an edge table: the two sample indices and their correlation. */
  datatype EdgeRecord = EdgeRecord(source: nat, target: nat, corr: real)

  type Table = seq<EdgeRecord>

  /** The partial-output directory: file name to stored edge table. */
  type Directory = map<string, Table>

  /** The file worker i writes in a run of nProcesses processes. */
  function FileNameOf(nProcesses: nat, i: nat): (name: string)
    ensures nProcesses <= 1001 ==> name == PartFileName(i, 3)
  {
    assert nProcesses <= 1001 ==> NameWidth(nProcesses) == 3 by {
      if nProcesses <= 1001 {
        NameWidthMatchesSource(nProcesses);
      }
    }
    PartFileName(i, NameWidth(nProcesses))
  }

  /** The file names of all dispatched workers, in worker order; they ascend in Python's order. */
  function ExpectedNames(nProcesses: nat): (names: seq<string>)
    ensures |names| == |WorkerIndices(nProcesses)|
    ensures forall i :: 0 <= i < |names| ==> names[i] == FileNameOf(nProcesses, i)
    ensures StrictlyAscending(names)
  {
    var names := seq(|WorkerIndices(nProcesses)|, i requires 0 <= i => FileNameOf(nProcesses, i));
    assert StrictlyAscending(names) by {
      forall i, j | 0 <= i < j < |names| ensures LexLess(names[i], names[j]) {
        PartFileNamesOrdered(i, j, NameWidth(nProcesses));
      }
    }
    names
  }

  /**
   * The table `create_ei(i)` stores: the edges `create_edges` produces for the
   * position range [pos_array[i], pos_array[i+1]). `edges` stands for that
   * library call.
   */
  function WorkerTable(nSamples: nat, nProcesses: nat, edges: (nat, nat) -> Table, i: nat): Table
    requires i + 1 < nProcesses
  {
    var range := WorkerRange(nSamples, nProcesses, i);
    edges(range.0, range.1)
  }

  /** Worker i's table is stored under worker i's name. */
  ghost predicate Stored(dir: Directory, nSamples: nat, nProcesses: nat, edges: (nat, nat) -> Table, i: nat)
  {
    i + 1 < nProcesses && FileNameOf(nProcesses, i) in dir &&
    dir[FileNameOf(nProcesses, i)] == WorkerTable(nSamples, nProcesses, edges, i)
  }

  /**
   * The pool loop (lines 66-70): `completion` is the order in which the workers
   * finish; each stores its table under its own name. The resulting directory
   * does not depend on that order.
   */
  method Dispatch(nSamples: nat, nProcesses: nat, edges: (nat, nat) -> Table, completion: seq<nat>)
    returns (dir: Directory)
    requires forall i: nat :: i in completion <==> i + 1 < nProcesses
    ensures forall f :: f in dir <==> f in ExpectedNames(nProcesses)
    ensures forall i: nat :: i + 1 < nProcesses ==> Stored(dir, nSamples, nProcesses, edges, i)
  {
    dir := map[];
    for k := 0 to |completion|
      invariant forall f :: f in dir ==> exists m :: 0 <= m < k && f == FileNameOf(nProcesses, completion[m])
      invariant forall m :: 0 <= m < k ==> Stored(dir, nSamples, nProcesses, edges, completion[m])
    {
      var i := completion[k];
      assert i + 1 < nProcesses by { assert i in completion; }
      StoreKeepsEarlier(dir, nSamples, nProcesses, edges, completion, k);
      dir := dir[FileNameOf(nProcesses, i) := WorkerTable(nSamples, nProcesses, edges, i)];
    }
    DispatchComplete(nSamples, nProcesses, edges, completion, dir);
  }

  /** Storing worker completion[k]'s table keeps every earlier worker's table and adds only its own name. */
  lemma StoreKeepsEarlier(dir: Directory, nSamples: nat, nProcesses: nat, edges: (nat, nat) -> Table,
                          completion: seq<nat>, k: nat)
    requires k < |completion| && completion[k] + 1 < nProcesses
    requires forall f :: f in dir ==> exists m :: 0 <= m < k && f == FileNameOf(nProcesses, completion[m])
    requires forall m :: 0 <= m < k ==> Stored(dir, nSamples, nProcesses, edges, completion[m])
    ensures var dir' := dir[FileNameOf(nProcesses, completion[k]) := WorkerTable(nSamples, nProcesses, edges, completion[k])];
      (forall f :: f in dir' ==> exists m :: 0 <= m < k + 1 && f == FileNameOf(nProcesses, completion[m])) &&
      (forall m :: 0 <= m < k + 1 ==> Stored(dir', nSamples, nProcesses, edges, completion[m]))
  {
    var i := completion[k];
    var dir' := dir[FileNameOf(nProcesses, i) := WorkerTable(nSamples, nProcesses, edges, i)];
    forall f | f in dir' ensures exists m :: 0 <= m < k + 1 && f == FileNameOf(nProcesses, completion[m]) {
      if f !in dir {
        assert f == FileNameOf(nProcesses, completion[k]);
      }
    }
    forall m | 0 <= m < k ensures Stored(dir', nSamples, nProcesses, edges, completion[m]) {
      if completion[m] == i {
        assert dir'[FileNameOf(nProcesses, i)] == WorkerTable(nSamples, nProcesses, edges, i);
      } else {
        StoreKeepsOther(dir, nSamples, nProcesses, edges, completion[m], i, WorkerTable(nSamples, nProcesses, edges, i));
      }
    }
  }

  /** Storing another worker's table leaves worker j's stored table in place. */
  lemma StoreKeepsOther(dir: Directory, nSamples: nat, nProcesses: nat, edges: (nat, nat) -> Table,
                        j: nat, i: nat, table: Table)
    requires Stored(dir, nSamples, nProcesses, edges, j) && i != j
    ensures Stored(dir[FileNameOf(nProcesses, i) := table], nSamples, nProcesses, edges, j)
  {
    var a, b := FileNameOf(nProcesses, j), FileNameOf(nProcesses, i);
    if a == b {
      PartFileNameInjective(j, i, NameWidth(nProcesses));
    }
  }

  lemma DispatchComplete(nSamples: nat, nProcesses: nat, edges: (nat, nat) -> Table, completion: seq<nat>,
                         dir: Directory)
    requires forall i: nat :: i in completion <==> i + 1 < nProcesses
    requires forall f :: f in dir ==> exists m :: 0 <= m < |completion| && f == FileNameOf(nProcesses, completion[m])
    requires forall m :: 0 <= m < |completion| ==> Stored(dir, nSamples, nProcesses, edges, completion[m])
    ensures forall f :: f in dir <==> f in ExpectedNames(nProcesses)
    ensures forall i: nat :: i + 1 < nProcesses ==> Stored(dir, nSamples, nProcesses, edges, i)
  {
    forall i: nat | i + 1 < nProcesses ensures Stored(dir, nSamples, nProcesses, edges, i) {
      assert i in completion;
      var m :| 0 <= m < |completion| && completion[m] == i;
    }
    DispatchKeys(nSamples, nProcesses, edges, completion, dir);
  }

  /** After the pool loop the directory holds exactly the expected names. */
  lemma DispatchKeys(nSamples: nat, nProcesses: nat, edges: (nat, nat) -> Table, completion: seq<nat>,
                     dir: Directory)
    requires forall i: nat :: i in completion ==> i + 1 < nProcesses
    requires forall f :: f in dir ==> exists m :: 0 <= m < |completion| && f == FileNameOf(nProcesses, completion[m])
    requires forall i: nat :: i + 1 < nProcesses ==> Stored(dir, nSamples, nProcesses, edges, i)
    ensures forall f :: f in dir <==> f in ExpectedNames(nProcesses)
  {
    var names := ExpectedNames(nProcesses);
    forall f ensures f in dir <==> f in names {
      if f in dir {
        var m :| 0 <= m < |completion| && f == FileNameOf(nProcesses, completion[m]);
        assert completion[m] in completion;
        assert |names| == nProcesses - 1;
        assert names[completion[m]] == f;
      }
      if f in names {
        var i :| 0 <= i < |names| && names[i] == f;
        assert Stored(dir, nSamples, nProcesses, edges, i);
      }
    }
  }

  /** The tables of the named files, appended in the order given. */
  function Merge(dir: Directory, files: seq<string>): Table
    requires forall f :: f in files ==> f in dir
  {
    if files == [] then [] else Merge(dir, files[..|files| - 1]) + dir[files[|files| - 1]]
  }

  /**
   * The collector (lines 77-82): `files.sort()`, then each table appended to
   * the store in that order. `listing` is what `os.listdir` returns.
   */
  method Collect(dir: Directory, listing: seq<string>) returns (store: Table)
    requires forall f :: f in listing <==> f in dir
    ensures store == Merge(dir, Sort(listing))
  {
    var files := Sort(listing);
    store := [];
    for k := 0 to |files|
      invariant store == Merge(dir, files[..k])
    {
      assert files[..k + 1][..k] == files[..k];
      store := store + dir[files[k]];
    }
    assert files[..|files|] == files;
  }

  /** Merging two lists of files is merging each and joining the results. */
  lemma {:induction false} MergeAppend(dir: Directory, a: seq<string>, b: seq<string>)
    requires forall f :: f in a + b ==> f in dir
    ensures Merge(dir, a + b) == Merge(dir, a) + Merge(dir, b)
  {
    if b != [] {
      assert (a + b)[..|a + b| - 1] == a + b[..|b| - 1];
      MergeAppend(dir, a, b[..|b| - 1]);
    } else {
      assert a + b == a;
    }
  }

  /**
   * Each partial table appears unchanged in the store, after exactly the
   * tables of the files before it.
   */
  lemma MergeKeepsEachTable(dir: Directory, files: seq<string>, k: nat)
    requires forall f :: f in files ==> f in dir
    requires k < |files|
    ensures Merge(dir, files) == Merge(dir, files[..k]) + dir[files[k]] + Merge(dir, files[k + 1..])
  {
    assert files == files[..k] + [files[k]] + files[k + 1..];
    MergeAppend(dir, files[..k] + [files[k]], files[k + 1..]);
    MergeAppend(dir, files[..k], [files[k]]);
    assert [files[k]][..0] == [];
  }

  /** The store holds as many rows as all the merged tables together. */
  lemma {:induction false} MergeLength(dir: Directory, files: seq<string>)
    requires forall f :: f in files ==> f in dir
    ensures |Merge(dir, files)| == Sum(seq(|files|, k requires 0 <= k < |files| => |dir[files[k]]|))
  {
    if files != [] {
      var n := |files|;
      var lens := seq(n, k requires 0 <= k < n => |dir[files[k]]|);
      MergeLength(dir, files[..n - 1]);
      assert lens[..n - 1] == seq(n - 1, k requires 0 <= k < n - 1 => |dir[files[..n - 1][k]]|);
    }
  }

  /** The tables of workers 0..m-1, joined in worker order. */
  function WorkerOutput(nSamples: nat, nProcesses: nat, edges: (nat, nat) -> Table, m: nat): Table
    requires m < nProcesses
  {
    if m == 0 then [] else WorkerOutput(nSamples, nProcesses, edges, m - 1) + WorkerTable(nSamples, nProcesses, edges, m - 1)
  }

  lemma {:induction false} MergeExpectedPrefix(nSamples: nat, nProcesses: nat, edges: (nat, nat) -> Table,
                                                dir: Directory, m: nat)
    requires m < nProcesses
    requires forall f :: f in ExpectedNames(nProcesses) ==> f in dir
    requires forall i: nat :: i + 1 < nProcesses ==> Stored(dir, nSamples, nProcesses, edges, i)
    ensures Merge(dir, ExpectedNames(nProcesses)[..m]) == WorkerOutput(nSamples, nProcesses, edges, m)
  {
    if m > 0 {
      var p := ExpectedNames(nProcesses)[..m];
      MergeExpectedPrefix(nSamples, nProcesses, edges, dir, m - 1);
      assert p[..m - 1] == ExpectedNames(nProcesses)[..m - 1];
      assert Merge(dir, p) == Merge(dir, p[..m - 1]) + dir[p[m - 1]];
      assert p[m - 1] == FileNameOf(nProcesses, m - 1);
      assert Stored(dir, nSamples, nProcesses, edges, m - 1);
    }
  }

  /**
   * A complete run: whatever order the workers finished in and whatever order
   * the directory is listed in, sorting the names restores worker order and
   * the store is the worker tables joined in worker order.
   */
  lemma CompleteRunMergesInWorkerOrder(nSamples: nat, nProcesses: nat, edges: (nat, nat) -> Table,
                                        dir: Directory, listing: seq<string>)
    requires nProcesses >= 1
    requires forall f :: f in dir <==> f in ExpectedNames(nProcesses)
    requires forall i: nat :: i + 1 < nProcesses ==> Stored(dir, nSamples, nProcesses, edges, i)
    requires (forall f :: f in listing <==> f in dir) && Distinct(listing)
    ensures Sort(listing) == ExpectedNames(nProcesses)
    ensures Merge(dir, Sort(listing)) == WorkerOutput(nSamples, nProcesses, edges, nProcesses - 1)
  {
    var names := ExpectedNames(nProcesses);
    ExpectedNamesDistinct(nProcesses);
    DistinctSameMembers(listing, names);
    SortRestoresOrder(listing, names);
    MergeExpectedPrefix(nSamples, nProcesses, edges, dir, nProcesses - 1);
    assert names[..nProcesses - 1] == names;
  }

  /** No two workers are expected to write the same file. */
  lemma ExpectedNamesDistinct(nProcesses: nat)
    ensures Distinct(ExpectedNames(nProcesses))
  {
    var names := ExpectedNames(nProcesses);
    forall i, j | 0 <= i < j < |names| ensures names[i] != names[j] {
      LexLessIrreflexive(names[i]);
    }
  }

  /** When every range yields one record per position, worker m-1's output ends at pos_array[m]. */
  lemma {:induction false} WorkerOutputLength(nSamples: nat, nProcesses: nat, edges: (nat, nat) -> Table, m: nat)
    requires m < nProcesses
    requires forall a: nat, b: nat :: a <= b ==> |edges(a, b)| == b - a
    ensures |WorkerOutput(nSamples, nProcesses, edges, m)| == PosArray(nSamples, nProcesses)[m]
  {
    if m > 0 {
      WorkerOutputLength(nSamples, nProcesses, edges, m - 1);
    }
  }

  /**
   * The store of a complete run has exactly n(n-1)/2 rows when each range
   * yields one record per position.
   */
  lemma CompleteRunRowCount(nSamples: nat, nProcesses: nat, edges: (nat, nat) -> Table)
    requires nProcesses >= 2
    requires forall a: nat, b: nat :: a <= b ==> |edges(a, b)| == b - a
    ensures |WorkerOutput(nSamples, nProcesses, edges, nProcesses - 1)| == TotalPairs(nSamples)
  {
    WorkerOutputLength(nSamples, nProcesses, edges, nProcesses - 1);
  }

  /**
   * If the edge computation over a range is the edges of its two halves joined,
   * the first m workers together yield the edges of [0, pos_array[m]).
   */
  lemma {:induction false} WorkerOutputIsPrefixRange(nSamples: nat, nProcesses: nat, edges: (nat, nat) -> Table, m: nat)
    requires nProcesses >= 2 && m < nProcesses
    requires forall a: nat, b: nat, c: nat :: a <= b <= c ==> edges(a, c) == edges(a, b) + edges(b, c)
    ensures WorkerOutput(nSamples, nProcesses, edges, m) == edges(0, PosArray(nSamples, nProcesses)[m])
  {
    var pos := PosArray(nSamples, nProcesses);
    if m == 0 {
      assert edges(0, 0) == edges(0, 0) + edges(0, 0);
    } else {
      WorkerOutputIsPrefixRange(nSamples, nProcesses, edges, m - 1);
      assert pos[0] <= pos[m - 1] <= pos[m];
    }
  }

  /** A complete run stores exactly what one edge computation over all T positions yields. */
  lemma CompleteRunIsWholeRange(nSamples: nat, nProcesses: nat, edges: (nat, nat) -> Table)
    requires nProcesses >= 2
    requires forall a: nat, b: nat, c: nat :: a <= b <= c ==> edges(a, c) == edges(a, b) + edges(b, c)
    ensures WorkerOutput(nSamples, nProcesses, edges, nProcesses - 1) == edges(0, TotalPairs(nSamples))
  {
    WorkerOutputIsPrefixRange(nSamples, nProcesses, edges, nProcesses - 1);
  }

  /** With at most 1001 processes, a directory of the source's names is one of the expected names. */
  lemma SourceDirectoryHasExpectedNames(nProcesses: nat, dir: Directory)
    requires 1 <= nProcesses <= 1001
    requires forall f :: f in dir <==> exists i: nat :: i + 1 < nProcesses && f == PartFileName(i, 3)
    ensures forall f :: f in dir <==> f in ExpectedNames(nProcesses)
  {
    var names := ExpectedNames(nProcesses);
    forall f ensures f in dir <==> f in names {
      if f in dir {
        var i: nat :| i + 1 < nProcesses && f == PartFileName(i, 3);
        assert names[i] == f;
      }
      if f in names {
        var i :| 0 <= i < |names| && names[i] == f;
        assert f == PartFileName(i, 3);
      }
    }
  }

  /**
   * The same conclusion for the source's own `str(i).zfill(3)` names, which is
   * what runs of at most 1001 processes use: whatever the completion and
   * listing order, the store is the worker tables joined in worker order.
   */
  lemma SourceNamesMergeInWorkerOrder(nSamples: nat, nProcesses: nat, edges: (nat, nat) -> Table,
                                      dir: Directory, listing: seq<string>)
    requires 1 <= nProcesses <= 1001
    requires forall f :: f in dir <==> exists i: nat :: i + 1 < nProcesses && f == PartFileName(i, 3)
    requires forall i: nat :: i + 1 < nProcesses ==>
      PartFileName(i, 3) in dir && dir[PartFileName(i, 3)] == WorkerTable(nSamples, nProcesses, edges, i)
    requires (forall f :: f in listing <==> f in dir) && Distinct(listing)
    ensures Merge(dir, Sort(listing)) == WorkerOutput(nSamples, nProcesses, edges, nProcesses - 1)
  {
    SourceDirectoryHasExpectedNames(nProcesses, dir);
    forall i: nat | i + 1 < nProcesses ensures Stored(dir, nSamples, nProcesses, edges, i) {
      assert FileNameOf(nProcesses, i) == PartFileName(i, 3);
    }
    CompleteRunMergesInWorkerOrder(nSamples, nProcesses, edges, dir, listing);
  }
}
