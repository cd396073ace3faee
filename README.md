# Parallel pairwise correlations and the polygon dataset: a Dafny model

This project models the bookkeeping in three Python scripts and proves properties about it.

`pairwise_correlations.py` computes every pairwise correlation of `n_samples` sample vectors in parallel:

- It counts the `T = n(n-1)/2` unordered pairs of samples.
- It cuts the positions `[0, T)` into ranges with `pos_array`.
- Each worker `i` computes the edges of the range `[pos_array[i], pos_array[i+1])`.
- Each worker stores its edge table in a file named `str(i).zfill(3) + ".pickle"`.
- The collector lists the directory, sorts the names and appends every table to one store.

`generatePolygons.py` contributes `clip` and the generation loop. The loop draws 18000 polygon images in six batches: triangles, tetragons and pentagons, each on a black and then a white background. Its counters `c` and `cc` pick the image numbers and the bounds of the random radius.

`compileDataset.py` does three things:

- It loads the three class directories in order.
- It shuffles each class.
- It builds the train, validation and test sets from fixed slices of every class, with a label vector of class indices for each.

Modules:

- `Partition` (partition.dfy) covers the pair count, the `pos_array` boundaries, the worker indices and the worker ranges. For n_processes >= 2 it proves that the ranges cover `[0, T)` with no gap or overlap, that their lengths sum to `T`, and exactly when some range is empty. For n_processes <= 1 no worker is dispatched at all and no pair is computed (`NoWorkersBelowTwo`).
- `Seqs` (seqs.dfy) holds facts about duplicate-free lists and multisets that the name listing and the shuffle share.
- `PyStrings` (pystrings.dfy) models Python's `<` on `str`. It models `list.sort` as a function, and proves it unique: a sorted rearrangement of a list is always the same list.
- `PartNames` (partnames.dfy) models `str(i)`, `int(s)`, `zfill`, the partial-file names and their order. It holds both halves of the finding below.
- `Collector` (collector.dfy) models the dispatch loop over an arbitrary completion order and the collector's sort-and-append loop. Its workers name their files with the widened padding of the finding below, which gives exactly the source's `zfill(3)` names for n_processes <= 1001. It proves that a complete run then stores the worker tables joined in worker order, and counts the stored rows. `SourceNamesMergeInWorkerOrder` states the same for the source's own names when n_processes <= 1001; from 1002 processes on the source's order differs (see the finding). When the edge computation over a range is the join of the computations over its halves, `CompleteRunIsWholeRange` closes the argument: the store is exactly what one `create_edges` call over [0, T) yields, with T = n(n-1)/2. Whether that call emits each pair once and in rank order is up to the library, which is not modelled; `CompleteRunRowCount` gives the row count under a one-record-per-position hypothesis.
- `Polygons` (polygons.dfy) models `clip` and the generation loop. The loop is a method checked against an independent description of image k.
- `Dataset` (dataset.dfy) models `os.path.dirname` on the class paths, the shuffle as an index permutation, the class loop, Python slicing, the splits and the labels.

Three facts about the code shape the model:

- The code computes `P` boundaries with `np.linspace(0, T, P)` and dispatches only `P-1` workers (`np.arange(0, n_processes - 1)`). So the model has `P-1` ranges with boundary `k*T/(P-1)`.
- With 100 processes over 6 pairs, 93 of the 99 ranges are empty; `EmptyRangeIff` gives the exact condition.
- The collector merges whatever files the directory lists and never detects a missing partial file; so does `Collect`.

## Model

| member | source | states |
|---|---|---|
| Partition.TotalPairs | pairwise_correlations.py:47 | `n*(n-1)//2` is exact: twice the result is `n*(n-1)` |
| Partition.ProductOfNeighboursEven | pairwise_correlations.py:47 | `n*(n-1)` is even, so the floor division loses nothing |
| Partition.TotalPairsStep | pairwise_correlations.py:47 | adding a sample adds one pair with each earlier sample |
| Partition.PairCount | pairwise_correlations.py:47 | `n*(n-1)//2` equals the number of pairs (i, j) with 0 <= i < j < n |
| Partition.Boundary | pairwise_correlations.py:47 | each `pos_array` entry lies in [0, T]; the first is 0 and the last is T |
| Partition.BoundaryMonotone | pairwise_correlations.py:47 | boundaries never decrease with k |
| Partition.PosArray | pairwise_correlations.py:47 | `pos_array` has n_processes entries; it starts at 0, ends at T for n_processes >= 2, stays within [0, T] and is non-decreasing |
| Partition.WorkerIndices | pairwise_correlations.py:67 | the dispatched indices are exactly 0..n_processes-2, so `i+1` is always a valid `pos_array` index |
| Partition.WorkerRange | pairwise_correlations.py:52-53 | worker i's range is well-formed and inside [0, T] |
| Partition.RangesCoverAllPositions | pairwise_correlations.py:52-53 | some worker owns position x if and only if x < T |
| Partition.OwnerUnique | pairwise_correlations.py:52-53 | no position is owned by two workers |
| Partition.RangesOrdered | pairwise_correlations.py:52-53 | an earlier range ends no later than a later one starts; neighbouring ranges share an endpoint |
| Partition.PrefixSumTelescopes | pairwise_correlations.py:47-53 | the lengths of the first k ranges add up to `pos_array[k]` |
| Partition.RangeLengthsSumToTotal | pairwise_correlations.py:47-53 | all range lengths add up to T; that every position is computed exactly once follows from `RangesCoverAllPositions` with `OwnerUnique` |
| Partition.NonEmptyWhenEnoughPairs | pairwise_correlations.py:47-53 | with at least as many pairs as workers, every range is non-empty |
| Partition.EmptyRangeIff | pairwise_correlations.py:47-53 | some worker gets an empty range if and only if T < n_processes - 1 |
| Partition.NoWorkersBelowTwo | pairwise_correlations.py:67 | with at most one process no worker is dispatched and no position is owned |
| PyStrings.LexLess | pairwise_correlations.py:78 | Python's `<` on `str`; a proper prefix comes before the longer string |
| PyStrings.LexLessTransitive | pairwise_correlations.py:78 | Python's string order is transitive |
| PyStrings.LexLessTotal | pairwise_correlations.py:78 | any two different strings are ordered one way or the other |
| PyStrings.LexLessAsymmetric | pairwise_correlations.py:78 | no two strings are each smaller than the other |
| PyStrings.LexLessCommonSuffix | pairwise_correlations.py:63 | appending ".pickle" to equally long names keeps their order |
| PyStrings.Insert | pairwise_correlations.py:78 | inserting adds exactly one occurrence of the element |
| PyStrings.InsertSorted | pairwise_correlations.py:78 | inserting into a sorted list keeps it sorted |
| PyStrings.Sort | pairwise_correlations.py:78 | `files.sort()` rearranges the names: same multiset, same members |
| PyStrings.SortSorted | pairwise_correlations.py:78 | the sorted list ascends in Python's order |
| PyStrings.SortedUnique | pairwise_correlations.py:78 | two sorted rearrangements of the same names are equal |
| PyStrings.SortRestoresOrder | pairwise_correlations.py:77-78 | sorting any listing of a strictly ascending list gives back that list, whatever the listing order |
| Seqs.RemoveAt | pairwise_correlations.py:77 | removing one entry of a duplicate-free listing removes exactly that name |
| Seqs.DistinctSameMembers | pairwise_correlations.py:77 | two duplicate-free listings of the same names are rearrangements of each other |
| PartNames.DecimalString | pairwise_correlations.py:63 | `str(i)` is a non-empty digit string with no leading zero for i > 0 |
| PartNames.Value | pairwise_correlations.py:63 | `int(s)` of a w-digit string is below 10^w |
| PartNames.ValueOfDecimal | pairwise_correlations.py:63 | `int(str(i)) == i` |
| PartNames.DecimalLength | pairwise_correlations.py:63 | i < 10^w has at most w digits |
| PartNames.DecimalLengthMonotone | pairwise_correlations.py:63 | a larger number never has fewer digits |
| PartNames.ZFill | pairwise_correlations.py:63 | `zfill(width)` yields max(len, width) characters |
| PartNames.ZFillDigits | pairwise_correlations.py:63 | zero padding keeps a digit string a digit string for the same number |
| PartNames.DigitStringOrder | pairwise_correlations.py:63 | for equally long digit strings, Python's order is numeric order, in both directions |
| PartNames.PaddedName | pairwise_correlations.py:63 | `str(i).zfill(width)` is a non-empty digit string that parses back to i |
| PartNames.PaddedNameShape | pairwise_correlations.py:63 | a padded index that fits is exactly `width` characters |
| PartNames.PaddedNamesOrdered | pairwise_correlations.py:63 | padded indices that fit sort exactly as the numbers do |
| PartNames.SourceNameShape | pairwise_correlations.py:63 | for i < 1000, `str(i).zfill(3)` is 3 digits that parse back to i |
| PartNames.SourceNamesOrdered | pairwise_correlations.py:63 | for i, j < 1000, the name of i sorts before that of j if and only if i < j |
| PartNames.PartFileName | pairwise_correlations.py:63 | `str(i).zfill(width) + ".pickle"`; its properties are the PartFileName lemmas below |
| PartNames.PartFileNameParses | pairwise_correlations.py:63 | a worker's file name ends in ".pickle" and its stem is digits that parse back to the worker index |
| PartNames.PartFileNameInjective | pairwise_correlations.py:63 | two workers never write the same file |
| PartNames.PartFileNamesOrdered | pairwise_correlations.py:63 | file names of indices that fit the width sort in worker order, in both directions |
| PartNames.WidthThreeMisordersAt1000 | pairwise_correlations.py:63 | as written, "1000.pickle" sorts before "101.pickle" |
| PartNames.NameWidth | pairwise_correlations.py:63 | the corrected width is at least 3 and fits every dispatched index |
| PartNames.NameWidthMatchesSource | pairwise_correlations.py:63 | for at most 1001 processes the corrected names are the source's names |
| Collector.FileNameOf | pairwise_correlations.py:63 | the name a worker writes; for at most 1001 processes it is the source's `str(i).zfill(3) + ".pickle"` |
| Collector.WorkerTable | pairwise_correlations.py:52-60 | the table `create_edges` yields for worker i's range `[pos_array[i], pos_array[i+1])` |
| Collector.Merge | pairwise_correlations.py:80-82 | the tables of the given files appended in the given order; its properties are the Merge lemmas below |
| Collector.WorkerOutput | pairwise_correlations.py:52-60 | the tables of workers 0..m-1 joined in worker order, the reference the store is compared with |
| Collector.ExpectedNames | pairwise_correlations.py:63-67 | one name per dispatched worker, in worker order and strictly ascending |
| Collector.Dispatch | pairwise_correlations.py:66-70 | for any completion order, the directory holds exactly the dispatched workers' files, each with its own worker's table |
| Collector.DispatchComplete | pairwise_correlations.py:66-70 | once every worker has stored its file, no other file is present and none is missing |
| Collector.Collect | pairwise_correlations.py:77-82 | the store is the tables of the sorted listing, appended in order |
| Collector.MergeAppend | pairwise_correlations.py:80-82 | merging two lists of files joins their merges |
| Collector.MergeKeepsEachTable | pairwise_correlations.py:80-82 | each table appears unchanged in the store, right after the tables of the files before it |
| Collector.MergeLength | pairwise_correlations.py:80-82 | the store's row count is the sum of the tables' row counts |
| Collector.MergeExpectedPrefix | pairwise_correlations.py:80-82 | merging the first m names gives the first m workers' tables in worker order |
| Collector.ExpectedNamesDistinct | pairwise_correlations.py:63 | no two workers are expected to write the same file |
| Collector.CompleteRunMergesInWorkerOrder | pairwise_correlations.py:66-82 | for any completion and listing order, sorting restores worker order and the store is the worker tables joined in worker order |
| Collector.SourceNamesMergeInWorkerOrder | pairwise_correlations.py:63-82 | with the source's `zfill(3)` names and at most 1001 processes, any completion and listing order gives the worker tables joined in worker order |
| Collector.WorkerOutputLength | pairwise_correlations.py:52-53 | with one record per position, the first m workers yield `pos_array[m]` rows |
| Collector.CompleteRunRowCount | pairwise_correlations.py:47-82 | with one record per position, a complete run stores exactly n(n-1)/2 rows |
| Collector.WorkerOutputIsPrefixRange | pairwise_correlations.py:47-82 | if the edge computation over a range is the join of its halves' computations, workers 0..m-1 together yield the edges of [0, pos_array[m]) |
| Collector.CompleteRunIsWholeRange | pairwise_correlations.py:47-82 | under that hypothesis a complete run stores exactly what one `create_edges` call over [0, T) yields, T = n(n-1)/2; whether that is each pair once in rank order is up to the library, which is not modelled |
| Polygons.Clip | generatePolygons.py:57-61 | x when min > max; otherwise a value in [min, max], and x itself when x is already there |
| Polygons.ClipIsNearest | generatePolygons.py:57-61 | with proper bounds, no point of [min, max] is nearer to x than the result |
| Polygons.ClipIdempotent | generatePolygons.py:57-61 | clipping twice is clipping once |
| Polygons.ClipMonotone | generatePolygons.py:57-61 | with proper bounds, clipping preserves order |
| Polygons.JobAt | generatePolygons.py:65-88 | reference description of image k: its number is k and its kind changes every 6000 images |
| Polygons.GenerationPlan | generatePolygons.py:65-88 | the loop asks for 18000 images numbered 0..17999 in order, each once; image k is what `JobAt(k)` describes, and every `r[cc]`, `r[cc+1]` access is in bounds |
| Polygons.FillOppositeBackground | generatePolygons.py:69-75 | background and fill are each 0 or 255 and always differ |
| Polygons.RadiusBoundsPerKind | generatePolygons.py:78 | triangles, tetragons and pentagons get radius bounds (14,21), (12,19) and (11,17); each range is non-empty |
| Polygons.BatchIsUniform | generatePolygons.py:77-84 | images of one batch differ only in their number |
| Polygons.ImageFileName | generatePolygons.py:85 | `'image_' + str(n) + '.png'`: the stem between prefix and extension is digits that parse back to n |
| Polygons.ImageFileNamesDistinct | generatePolygons.py:85 | different image numbers give different file names |
| Dataset.HeadLength | compileDataset.py:23-25 | the head of a path ends with its last '/', and no '/' follows it |
| Dataset.StripTrailingSlashes | compileDataset.py:23-25 | `rstrip('/')` removes exactly the trailing slashes |
| Dataset.DirName | compileDataset.py:23-25 | `os.path.dirname(p)` is a prefix of p |
| Dataset.DirNameOfChild | compileDataset.py:23-25 | the dirname of `dir + "/" + file` is dir, for a file name without '/' and a dir not ending in one |
| Dataset.ClassPath | compileDataset.py:23-25 | `mypaths[k]` is the directory of class k (3, 4, 5) under the dataset root, for any root |
| Dataset.ClassPathIsClassDirectory | compileDataset.py:23-25 | the dirname of `root + "/k/image_….png"` is `root + "/k"`, the proof behind `ClassPath` |
| Dataset.Shuffled | compileDataset.py:30 | the shuffled array is as long as the original |
| Dataset.PermutationWithoutLast | compileDataset.py:30 | removing the position of the last index from a permutation leaves a permutation |
| Dataset.ShuffleWithout | compileDataset.py:30 | taking out the element that came from the last position leaves the shuffle of the shorter array |
| Dataset.ShufflePreservesContents | compileDataset.py:30 | shuffling keeps every image, as often as it occurred |
| Dataset.AssembleDataset | compileDataset.py:26-31 | `dataset[k]` is the shuffle of class k's images, in class order, holding exactly the loaded images |
| Dataset.Slice | compileDataset.py:35-37 | `s[lo:hi]` has the clamped length and element i is `s[lo+i]` |
| Dataset.SlicesJoin | compileDataset.py:35-37 | consecutive slices join into the slice over their union |
| Dataset.SplitsPartitionEachClass | compileDataset.py:35-37 | per class, train, val and test are the consecutive ranges [0,12000), [12000,16000), [16000,20000) |
| Dataset.SplitX | compileDataset.py:35-37 | when every class has at least hi items, the split of [lo, hi) holds 3*(hi-lo) items |
| Dataset.TrainX | compileDataset.py:35 | with at least 12000 items per class, `train_x` holds 36000 items |
| Dataset.ValX | compileDataset.py:36 | with at least 16000 items per class, `val_x` holds 12000 items |
| Dataset.TestX | compileDataset.py:37 | with at least 20000 items per class, `test_x` holds 12000 items |
| Dataset.Labels | compileDataset.py:38-40 | length `3*(n//3)`; entry k is the block k falls in, always 0, 1 or 2 |
| Dataset.LabelsFitIff | compileDataset.py:38-40 | the labels are as long as the split if and only if its length is a multiple of 3 |
| Dataset.SplitElement | compileDataset.py:35-37 | element k of a split is item `lo + k mod m` of class `k / m`, where m = hi - lo |
| Dataset.SplitLabelsMatchClasses | compileDataset.py:35-40 | when every class has enough items, the label at k is the class that element k came from, at class offset `lo + k mod m` |
| Dataset.SplitSizes | compileDataset.py:35-40 | with at least 20000 images per class, the splits hold 36000, 12000 and 12000 images, each labelled |

## Left out

- The correlation kernel `corr`, centering and variance (pairwise_correlations.py:20-22, 40-44) are floating-point numerics. Edge records are opaque values.
- `np.linspace` float rounding: boundaries are exact integer division `k*T/(P-1)`. For the configured T = 4950 and P = 100 the step is exactly 50, so the two agree there.
- `deepgraph.DeepGraph` and `create_edges` are a foreign library. The table a worker produces for a range is a function parameter `edges(from, to)`, and the position-to-pair mapping inside it is not modelled.
- `multiprocessing.Pool` / `imap_unordered` concurrency is modelled as a sequential loop over an arbitrary completion order.
- Collector.FileNameOf: the collector model runs the widened naming of `NameWidth`, not the source's fixed `zfill(3)`. The two are identical for n_processes <= 1001 (`NameWidthMatchesSource`, `SourceNamesMergeInWorkerOrder`). From 1002 processes on, the model keeps worker order where the source misorders (see Findings).
- Collector.Dispatch: the partial-file directory starts empty. Stale files left in `/tmp/corr/` by an earlier run would also be listed and merged, and this is not modelled.
- All file and serialization I/O is out: `np.save`/`np.load`, pickles, `HDFStore`, PIL drawing and saving, `Image.open` and `dill.dump_session`. `os.listdir` becomes a `listing` parameter, and `load_dataset` becomes a `load` function parameter.
- Randomness is out: the sample matrix, polygon centres and radii, and `np.random.shuffle`. The shuffle is an arbitrary permutation input.
- `generatePolygon` (generatePolygons.py:10-55) is trigonometry and float normalisation. Of its call (line 78) only the number of sides and the bounds of the radius draw are modelled; the centre offsets `30+np.random.randint(-8,8)` and the constant arguments 0.5 and 0 are not. The background and fill grey levels, which go to `Image.new` and `draw.polygon` (lines 79, 83), are modelled; the drawing itself is not.
- `Dataset.SplitLabelsMatchClasses`: requires every class to hold at least `hi` items. Classes shorter than `hi` and of different lengths give slices of different lengths, and then the labels misalign; three equally short classes would still line up, but the lemma does not cover that case.

## Findings

| source | as written | input that shows it | evidently intended | confidence | as-written member | corrected member |
|---|---|---|---|---|---|---|
| pairwise_correlations.py:63 | file names are `str(i).zfill(3)`, and the collector sorts them as strings | n_processes = 1002: worker 1000's "1000.pickle" sorts before worker 101's "101.pickle", so its table is merged out of worker order | names that sort in worker order for every dispatched index | low (harmless for the configured 100 processes), not executed | PartNames.WidthThreeMisordersAt1000 | PartNames.NameWidth |
