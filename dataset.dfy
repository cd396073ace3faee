/**
 * Assembly of the polygon dataset (compileDataset.py, lines 22-40): one
 * shuffled image array per class directory, in class order, then fixed
 * slices of every class joined into the train, validation and test sets
 * and a label vector of 0s, 1s and 2s for each.
 */
module Dataset {
  import opened Seqs

  // ---------------------------------------------------------------------
  // Class directories
  // ---------------------------------------------------------------------

  predicate IsSlash(c: char)
  {
    c == '/'
  }

  /** The length of the part of p up to and including its last '/' (0 when there is none). */
  function HeadLength(p: string): (n: nat)
    ensures n <= |p|
    ensures n > 0 ==> IsSlash(p[n - 1])
    ensures forall i :: n <= i < |p| ==> !IsSlash(p[i])
  {
    if p == [] then 0
    else if IsSlash(p[|p| - 1]) then |p|
    else HeadLength(p[..|p| - 1])
  }

  /** `head.rstrip('/')`. */
  function StripTrailingSlashes(head: string): (r: string)
    ensures r <= head
    ensures r == [] || !IsSlash(r[|r| - 1])
    ensures forall i :: |r| <= i < |head| ==> IsSlash(head[i])
  {
    if head != [] && IsSlash(head[|head| - 1]) then StripTrailingSlashes(head[..|head| - 1]) else head
  }

  /**
   * `os.path.dirname(p)` on POSIX: everything up to the last '/', with the
   * trailing slashes removed unless that part is slashes only.
   */
  function DirName(p: string): (dir: string)
    ensures dir <= p
  {
    var head := p[..HeadLength(p)];
    if head != [] && exists i :: 0 <= i < |head| && !IsSlash(head[i]) then StripTrailingSlashes(head) else head
  }

  /** The class subdirectories, in the order of `mypaths` (lines 23-25). */
  const ClassDirs: seq<string> := ["3", "4", "5"]

  /** The file name each `mypaths` entry is derived from. */
  const ClassSampleFiles: seq<string> := ["image_0.png", "image_20000.png", "image_40000.png"]

  /** `mypaths[k]`: the directory part of `dataset_dir + "/<kind>/<sample file>"`. */
  function ClassPath(root: string, k: nat): (path: string)
    requires k < |ClassDirs|
    ensures path == root + "/" + ClassDirs[k]
  {
    ClassPathIsClassDirectory(root, k);
    DirName(root + "/" + ClassDirs[k] + "/" + ClassSampleFiles[k])
  }

  /** `mypaths[k]` is the directory of class k under the dataset root, whatever the root. */
  lemma ClassPathIsClassDirectory(root: string, k: nat)
    requires k < |ClassDirs|
    ensures DirName(root + "/" + ClassDirs[k] + "/" + ClassSampleFiles[k]) == root + "/" + ClassDirs[k]
  {
    var dir, file := root + "/" + ClassDirs[k], ClassSampleFiles[k];
    assert dir[|dir| - 1] == ClassDirs[k][0];
    assert forall i :: 0 <= i < |file| ==> !IsSlash(file[i]);
    DirNameOfChild(dir, file);
  }

  /** The directory part of `dir + "/" + file` is dir, for a file name without '/' and a dir not ending in one. */
  lemma DirNameOfChild(dir: string, file: string)
    requires dir != [] && !IsSlash(dir[|dir| - 1])
    requires forall i :: 0 <= i < |file| ==> !IsSlash(file[i])
    ensures DirName(dir + "/" + file) == dir
  {
    var p := dir + "/" + file;
    assert forall i :: |dir| < i < |p| ==> p[i] == file[i - |dir| - 1];
    HeadLengthAtLastSlash(p, |dir|);
    var head := p[..|dir| + 1];
    assert head == dir + "/";
    assert !IsSlash(head[|dir| - 1]);
    assert head[..|head| - 1] == dir;
  }

  lemma {:induction false} HeadLengthAtLastSlash(p: string, n: nat)
    requires n < |p| && IsSlash(p[n])
    requires forall i :: n < i < |p| ==> !IsSlash(p[i])
    ensures HeadLength(p) == n + 1
  {
    if n + 1 < |p| {
      HeadLengthAtLastSlash(p[..|p| - 1], n);
    }
  }

  // ---------------------------------------------------------------------
  // Shuffle
  // ---------------------------------------------------------------------

  /** perm rearranges the positions 0..n-1: each appears exactly once. */
  ghost predicate IsPermutation(perm: seq<nat>, n: nat)
  {
    |perm| == n && Distinct(perm) &&
    (forall i :: 0 <= i < n ==> perm[i] < n) &&
    (forall v: nat :: v < n ==> v in perm)
  }

  /** The array after `np.random.shuffle`: element i is the old element perm[i]. */
  function Shuffled<T>(data: seq<T>, perm: seq<nat>): (r: seq<T>)
    requires IsPermutation(perm, |data|)
    ensures |r| == |data|
  {
    seq(|data|, i requires 0 <= i < |data| => data[perm[i]])
  }

  /** Dropping the position that holds n-1 from a permutation of 0..n-1 leaves a permutation of 0..n-2. */
  lemma PermutationWithoutLast(perm: seq<nat>, n: nat, j: nat)
    requires n > 0 && IsPermutation(perm, n) && j < n && perm[j] == n - 1
    ensures IsPermutation(Without(perm, j), n - 1)
  {
    var p := Without(perm, j);
    RemoveAt(perm, j);
    assert forall i :: 0 <= i < |p| ==> p[i] == perm[if i < j then i else i + 1];
    forall i | 0 <= i < n - 1 ensures p[i] < n - 1 {
      var i' := if i < j then i else i + 1;
      assert perm[i'] != perm[j];
    }
    forall v: nat | v < n - 1 ensures v in p {
      assert v in perm && v != perm[j];
    }
  }

  /** Taking out the image that came from the last position leaves the shuffle of the shorter array. */
  lemma ShuffleWithout<T>(data: seq<T>, perm: seq<nat>, j: nat)
    requires |data| > 0 && IsPermutation(perm, |data|) && j < |data| && perm[j] == |data| - 1
    requires IsPermutation(Without(perm, j), |data| - 1)
    ensures Without(Shuffled(data, perm), j) == Shuffled(data[..|data| - 1], Without(perm, j))
  {
    var n := |data|;
    var s, perm' := Shuffled(data, perm), Without(perm, j);
    forall i | 0 <= i < n - 1 ensures Without(s, j)[i] == Shuffled(data[..n - 1], perm')[i] {
      var i' := if i < j then i else i + 1;
      assert Without(s, j)[i] == s[i'];
      assert perm'[i] == perm[i'];
    }
  }

  lemma RestoreLast<T>(s: seq<T>, data: seq<T>, j: nat)
    requires |s| == |data| > 0 && j < |s| && s[j] == data[|data| - 1]
    requires multiset(Without(s, j)) == multiset(data[..|data| - 1])
    ensures multiset(s) == multiset(data)
  {
    assert data == data[..|data| - 1] + [data[|data| - 1]];
  }

  /** Shuffling keeps every image, as often as it was there. */
  lemma {:induction false} ShufflePreservesContents<T>(data: seq<T>, perm: seq<nat>)
    requires IsPermutation(perm, |data|)
    ensures multiset(Shuffled(data, perm)) == multiset(data)
  {
    var n := |data|;
    if n > 0 {
      assert n - 1 in perm;
      var j :| 0 <= j < n && perm[j] == n - 1;
      PermutationWithoutLast(perm, n, j);
      ShufflePreservesContents(data[..n - 1], Without(perm, j));
      ShuffleWithout(data, perm, j);
      RestoreLast(Shuffled(data, perm), data, j);
    }
  }

  /**
   * The class loop (lines 26-31): for each class directory in order, load its
   * images (`load` stands for `load_dataset`, listing order included), shuffle
   * them with that class's permutation and append the array.
   */
  method AssembleDataset<T>(root: string, load: string -> seq<T>, perms: seq<seq<nat>>)
    returns (dataset: seq<seq<T>>)
    requires |perms| == |ClassDirs|
    requires forall k :: 0 <= k < |ClassDirs| ==> IsPermutation(perms[k], |load(ClassPath(root, k))|)
    ensures |dataset| == |ClassDirs|
    ensures forall k :: 0 <= k < |dataset| ==> dataset[k] == Shuffled(load(ClassPath(root, k)), perms[k])
    ensures forall k :: 0 <= k < |dataset| ==> multiset(dataset[k]) == multiset(load(ClassPath(root, k)))
  {
    dataset := [];
    for k := 0 to |ClassDirs|
      invariant |dataset| == k
      invariant forall m :: 0 <= m < k ==> ClassLoaded(root, load, perms, m, dataset[m])
    {
      var tempdata := load(ClassPath(root, k));
      var data := Shuffled(tempdata, perms[k]);
      ShufflePreservesContents(tempdata, perms[k]);
      dataset := dataset + [data];
    }
  }

  /** Class k of the dataset is the shuffled content of its class file, with the same images. */
  ghost predicate ClassLoaded<T>(root: string, load: string -> seq<T>, perms: seq<seq<nat>>, k: nat, data: seq<T>)
    requires k < |perms| == |ClassDirs|
    requires IsPermutation(perms[k], |load(ClassPath(root, k))|)
  {
    data == Shuffled(load(ClassPath(root, k)), perms[k]) &&
    multiset(data) == multiset(load(ClassPath(root, k)))
  }

  // ---------------------------------------------------------------------
  // Splits and labels
  // ---------------------------------------------------------------------

  function Min(a: nat, b: nat): nat
  {
    if a <= b then a else b
  }

  /** Python's `s[lo:hi]` for non-negative bounds: both clamped to the length, empty when crossed. */
  function Slice<T>(s: seq<T>, lo: nat, hi: nat): (r: seq<T>)
    ensures |r| == if Min(hi, |s|) <= lo then 0 else Min(hi, |s|) - lo
    ensures forall i :: 0 <= i < |r| ==> lo + i < |s| && r[i] == s[lo + i]
  {
    var a, b := Min(lo, |s|), Min(hi, |s|);
    if b <= a then [] else s[a..b]
  }

  /** Consecutive slices of one array join into the slice over their union. */
  lemma SlicesJoin<T>(s: seq<T>, a: nat, b: nat, c: nat)
    requires a <= b <= c
    ensures Slice(s, a, b) + Slice(s, b, c) == Slice(s, a, c)
  {
    var l, r := Slice(s, a, b), Slice(s, b, c);
    assert |l + r| == |Slice(s, a, c)|;
    forall i | 0 <= i < |l + r| ensures (l + r)[i] == Slice(s, a, c)[i] {
      if i >= |l| {
        assert |l| == b - a;
      }
    }
  }

  /** Train, validation and test take the consecutive index ranges [0,12000), [12000,16000), [16000,20000) of a class. */
  lemma SplitsPartitionEachClass<T>(s: seq<T>)
    ensures Slice(s, 0, 12000) + Slice(s, 12000, 16000) + Slice(s, 16000, 20000) == Slice(s, 0, 20000)
  {
    SlicesJoin(s, 0, 12000, 16000);
    SlicesJoin(s, 0, 16000, 20000);
  }

  /** `np.concatenate((dataset[0][lo:hi], dataset[1][lo:hi], dataset[2][lo:hi]))`. */
  function SplitX<T>(dataset: seq<seq<T>>, lo: nat, hi: nat): (x: seq<T>)
    requires |dataset| == |ClassDirs|
    ensures lo <= hi && (forall c :: 0 <= c < |dataset| ==> |dataset[c]| >= hi) ==> |x| == 3 * (hi - lo)
  {
    Slice(dataset[0], lo, hi) + Slice(dataset[1], lo, hi) + Slice(dataset[2], lo, hi)
  }

  function TrainX<T>(dataset: seq<seq<T>>): (x: seq<T>)
    requires |dataset| == |ClassDirs|
    ensures (forall c :: 0 <= c < |dataset| ==> |dataset[c]| >= 12000) ==> |x| == 36000
  {
    SplitX(dataset, 0, 12000)
  }

  function ValX<T>(dataset: seq<seq<T>>): (x: seq<T>)
    requires |dataset| == |ClassDirs|
    ensures (forall c :: 0 <= c < |dataset| ==> |dataset[c]| >= 16000) ==> |x| == 12000
  {
    SplitX(dataset, 12000, 16000)
  }

  function TestX<T>(dataset: seq<seq<T>>): (x: seq<T>)
    requires |dataset| == |ClassDirs|
    ensures (forall c :: 0 <= c < |dataset| ==> |dataset[c]| >= 20000) ==> |x| == 12000
  {
    SplitX(dataset, 16000, 20000)
  }

  function Repeat(v: nat, n: nat): (r: seq<nat>)
    ensures |r| == n && forall i :: 0 <= i < n ==> r[i] == v
  {
    seq(n, _ => v)
  }

  /**
   * The label vector of a split of length n (lines 38-40): `int(n/3)` zeros,
   * then as many ones, then as many twos. Entry k names block k / (n/3).
   */
  function Labels(n: nat): (y: seq<nat>)
    ensures |y| == 3 * (n / 3)
    ensures forall k :: 0 <= k < |y| ==> y[k] == k / (n / 3) && y[k] < |ClassDirs|
  {
    var m := n / |ClassDirs|;
    var y := Repeat(0, m) + Repeat(1, m) + Repeat(2, m);
    assert forall k :: 0 <= k < |y| ==> y[k] == k / m by {
      forall k | 0 <= k < |y| ensures y[k] == k / m {
        BlockOf(k, m);
      }
    }
    y
  }

  lemma BlockOf(k: nat, m: nat)
    requires k < 3 * m
    ensures k < m ==> k / m == 0 && k % m == k
    ensures m <= k < 2 * m ==> k / m == 1 && k % m == k - m
    ensures 2 * m <= k ==> k / m == 2 && k % m == k - 2 * m
  {
    if m <= k < 2 * m {
      assert k == m + (k - m);
    } else if 2 * m <= k {
      assert k == 2 * m + (k - 2 * m);
    }
  }

  /** The labels are exactly as long as the split precisely when its length is a multiple of three. */
  lemma LabelsFitIff(n: nat)
    ensures |Labels(n)| == n <==> n % 3 == 0
  {
  }

  /**
   * When each class has at least hi items, a split of [lo, hi) is m items of
   * class 0, then m of class 1, then m of class 2, with m = hi - lo; its label
   * vector is as long as the split and the label at k is the class its
   * element came from.
   */
  lemma {:induction false} SplitLabelsMatchClasses<T>(dataset: seq<seq<T>>, lo: nat, hi: nat)
    requires |dataset| == |ClassDirs| && lo < hi
    requires forall c :: 0 <= c < |dataset| ==> |dataset[c]| >= hi
    ensures |SplitX(dataset, lo, hi)| == 3 * (hi - lo)
    ensures |Labels(|SplitX(dataset, lo, hi)|)| == |SplitX(dataset, lo, hi)|
    ensures forall k :: 0 <= k < |SplitX(dataset, lo, hi)| ==>
      var c := Labels(|SplitX(dataset, lo, hi)|)[k];
      c < |dataset| && SplitX(dataset, lo, hi)[k] == dataset[c][lo + k % (hi - lo)]
  {
    var m := hi - lo;
    var x := SplitX(dataset, lo, hi);
    assert |x| / 3 == m;
    forall k | 0 <= k < |x|
      ensures Labels(|x|)[k] < |dataset| && x[k] == dataset[Labels(|x|)[k]][lo + k % m]
    {
      SplitElement(dataset, lo, hi, k);
    }
  }

  /** Element k of a split comes from class k / m at offset lo + k mod m, where m = hi - lo. */
  lemma SplitElement<T>(dataset: seq<seq<T>>, lo: nat, hi: nat, k: nat)
    requires |dataset| == |ClassDirs| && lo < hi
    requires forall c :: 0 <= c < |dataset| ==> |dataset[c]| >= hi
    requires k < 3 * (hi - lo)
    ensures k / (hi - lo) < |dataset| && lo + k % (hi - lo) < |dataset[k / (hi - lo)]|
    ensures SplitX(dataset, lo, hi)[k] == dataset[k / (hi - lo)][lo + k % (hi - lo)]
  {
    var m := hi - lo;
    var x := SplitX(dataset, lo, hi);
    var s0, s1, s2 := Slice(dataset[0], lo, hi), Slice(dataset[1], lo, hi), Slice(dataset[2], lo, hi);
    assert x == s0 + s1 + s2;
    assert |s0| == m && |s1| == m && |s2| == m;
    BlockOf(k, m);
    if k < m {
      assert x[k] == s0[k];
    } else if k < 2 * m {
      assert x[k] == (s1 + s2)[k - m] == s1[k - m];
    } else {
      assert x[k] == s2[k - 2 * m];
    }
  }

  /** With at least 20000 images per class the splits hold 36000, 12000 and 12000 images, each labelled. */
  lemma SplitSizes<T>(dataset: seq<seq<T>>)
    requires |dataset| == |ClassDirs|
    requires forall c :: 0 <= c < |dataset| ==> |dataset[c]| >= 20000
    ensures |TrainX(dataset)| == 36000 == |Labels(|TrainX(dataset)|)|
    ensures |ValX(dataset)| == 12000 == |Labels(|ValX(dataset)|)|
    ensures |TestX(dataset)| == 12000 == |Labels(|TestX(dataset)|)|
  {
  }
}
