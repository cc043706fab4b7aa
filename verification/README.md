# PyNets benchmarking and figure bookkeeping in Dafny

This project models four pieces of PyNets, the Python toolkit that builds
functional and structural brain networks, and proves properties of each.

- **Hyperparameter bookkeeping** (`build_hp_dict`). A derivative file name
  carries tags of the form `<name>-<value>_`. For every requested name,
  the value after `name-` is cut at the first `_` and appended to the
  list kept under that name. If a requested tag is absent, the lookup
  raises IndexError. The model returns that name and keeps the updates
  made before the failure, as the in-place Python code does. The
  functional and diffusion modalities also read their own tags
  (`smooth`/`hpass`/`extract`, and `directget`/`minlength`/`tol`). The
  units `fwhm` and `Hz` are stripped. Each such name is appended to the
  name list, and every value list is de-duplicated at the end. The
  dictionary and the name list are fields of the class
  `HyperparamTables`, whose methods update them in place.
- **The discriminability statistic** (`_discr_rdf`, `discr_stat`).
  - For sample `i`, the rdf value of each same-label distance `d` is
    `1 - (#{other-label distances < d} + 0.5 · #{… = d}) / #other-label`.
  - Rows are padded with NaN to the longest row.
  - `discr_stat` first checks the input. It then optionally removes
    samples whose label occurs only once. For the five named
    dissimilarities (`euclidean`, `cosine`, `haversine`, `manhattan`,
    `mahalanobis`) it removes them from the rows only. For any other name
    it removes them from rows and columns, as for a precomputed matrix. It
    computes pairwise distances where asked, masks
    rdf values below 0.5 as NaN and returns their NaN-ignoring mean.
  - NaN is `None`, and numbers are mathematical reals.
  - The scikit-learn distance functions are a parameter `metric`.
  - For `"mahalanobis"`, the code removes isolates from the rows and then
    hands the raw feature matrix to `_discr_rdf` as if it held
    dissimilarities. The model keeps this. `MahalanobisUsesFeatures`
    proves that the result is the kept feature rows, and that an
    IndexError follows whenever their width differs from the number of
    kept labels.
- **`reshape_graphs`**: a stack of `v1 × v2` matrices becomes a stack of
  rows of length `v1·v2`, in row-major order, and this can be undone.
- **The adjacency-matrix figures**:
  - the file names of the functional and diffusion adjacency figures and
    of their community variants;
  - the stable `sorting_array` that orders nodes by community;
  - the matrix permuted by it;
  - the loop that places one square per community along the diagonal.
  The loop becomes the method `BlockLayout`. It is proved against
  `np.unique` (increasing distinct communities) and against the sorted
  community vector. The figure draws those squares over the unsorted
  matrix `conn_matrix_plt`; the sorted matrix only supplies the node
  count. The squares therefore frame the communities of the sorted
  matrix, and not those of the matrix shown unless the community vector
  is already sorted (see "## Findings").

Modules:
- `Wrappers`: `Option`, `Result`.
- `Text`: `str.split` pieces, `basename`, decimal digits.
- `HpDict`.
- `Discriminability`.
- `Reshape`.
- `FigureNames`.
- `CommunityLayout`.

## Model

| member | source | states |
|---|---|---|
| HpDict.TagValue | pynets/stats/benchmarking.py:52 | the tag value is missing exactly when `name-` does not occur in the file name; a value never contains `_` |
| HpDict.TagValueSpec | pynets/stats/benchmarking.py:52 | the value is a prefix of the text after the first `name-`; it stops at the first `_`, at the next `name-` or at the end |
| HpDict.Append | pynets/stats/benchmarking.py:50-57 | appending creates the list for a new key or extends the existing one; every other key is unchanged |
| HpDict.GenericPassFailure | pynets/stats/benchmarking.py:37-57 | the loop fails exactly when some non-excluded requested name has no tag; it reports the first such name, and every earlier name is excluded or present |
| HpDict.GenericPassStops | pynets/stats/benchmarking.py:37-57 | once a lookup has failed, later names change nothing (the exception ends the loop) |
| HpDict.GenericPass | pynets/stats/benchmarking.py:37-57 | the loop over the requested names as a function: skip excluded names, append each tag value, stop at the first missing tag; its properties are the `GenericPass…` lemmas |
| HpDict.GenericPassRecords | pynets/stats/benchmarking.py:37-57 | after a complete loop, earlier lists survive as prefixes; every non-excluded name holds its tag value; no other key is added; every value in the table was there before or is the tag value of a non-excluded requested name |
| HpDict.GenericPassOnly | pynets/stats/benchmarking.py:37-57 | the loop adds no value other than the tag values of non-excluded requested names |
| HpDict.ExtraPair | pynets/stats/benchmarking.py:60-67 | one modality tag gives at most one pair, named after the tag, and one exactly when `name-` occurs in the file name |
| HpDict.Extras | pynets/stats/benchmarking.py:59-119 | the modality branch gives at most one pair per name of its modality |
| HpDict.ExtraPairSpec | pynets/stats/benchmarking.py:60-87 | one modality tag yields at most one (name, value) pair, and one exactly when `name-` occurs in the file name; the value is the tag value with its unit stripped |
| HpDict.ExtrasSpec | pynets/stats/benchmarking.py:59-119 | the modality pairs name only the modality's own tags, each read from the file; every present tag yields a pair; no name occurs twice; other modalities add nothing |
| HpDict.StrippedHasNoUnit | pynets/stats/benchmarking.py:62-63 | a value cut at its unit (`fwhm`, `Hz`) no longer contains that unit |
| HpDict.AppendAllRecords | pynets/stats/benchmarking.py:59-119 | appending a run of pairs keeps earlier lists as prefixes, records every pair, adds no other key and no value that is not an old value or one of the pairs |
| HpDict.AppendAllOnly | pynets/stats/benchmarking.py:59-119 | every value after appending a run of pairs was there before or is one of the pairs |
| HpDict.AppendAllConcat | pynets/stats/benchmarking.py:59-119 | appending two runs one after the other is appending their concatenation |
| HpDict.Distinct | pynets/stats/benchmarking.py:122 | `list(set(xs))` has no duplicates and the same members as `xs` |
| HpDict.DistinctAll | pynets/stats/benchmarking.py:121-122 | de-duplication keeps the keys, and each list keeps its members without duplicates |
| HpDict.BuildOutcome | pynets/stats/benchmarking.py:31-124 | after a successful run: earlier values survive; every requested tag value and modality pair is recorded; no other key appears; every value is an earlier value, a requested tag value or a modality pair's value; no list holds a duplicate |
| HpDict.AppendedOutcome | pynets/stats/benchmarking.py:36-119 | before de-duplication: earlier lists survive as prefixes; every requested tag value and modality pair is recorded; no other key appears |
| HpDict.AppendedValuesOnly | pynets/stats/benchmarking.py:36-119 | before de-duplication every value is an earlier value, a requested tag value or a modality pair's value |
| HpDict.HyperparamTables.BuildHpDict | pynets/stats/benchmarking.py:31-124 | fails exactly when a requested tag is missing and then keeps the partial table; otherwise the new state is the de-duplicated table with the modality names appended, and the facts of `BuildOutcome` hold for it, including that no other value appears |
| HpDict.HyperparamTables.ScanNames | pynets/stats/benchmarking.py:37-57 | the loop over the requested names leaves the table and failure that the generic pass defines |
| HpDict.HyperparamTables.AddModalityTags | pynets/stats/benchmarking.py:59-119 | the modality branch appends exactly the modality pairs, to the table and to the name list |
| HpDict.HyperparamTables.AddThreeTags | pynets/stats/benchmarking.py:59-119 | the three blocks of one modality append their pairs, in order, to the table and their names to the name list |
| HpDict.HyperparamTables.AddTag | pynets/stats/benchmarking.py:60-68 | one tag branch appends its pair (when present) to the table and its name to the name list |
| HpDict.HyperparamTables.DeduplicateLists | pynets/stats/benchmarking.py:121-122 | the final loop replaces every list by its de-duplication and leaves the names alone |
| Discriminability.LabelMaskCount | pynets/stats/benchmarking.py:225-230 | the same-label mask selects as many samples as carry the label; its negation selects the rest |
| Discriminability.KeepMask | pynets/stats/benchmarking.py:161-163 | the `np.isin` mask of samples whose label is not single; its properties are `RemoveIsolatesSpec` |
| Discriminability.RemoveIsolatesSpec | pynets/stats/benchmarking.py:161-164 | after isolate removal a single label disappears, every other label keeps its full count, and every remaining label occurs at least twice |
| Discriminability.RdfValue | pynets/stats/benchmarking.py:232-233 | the rdf value is NaN exactly when no sample carries another label (numpy divides by zero) |
| Discriminability.RdfValueBounds | pynets/stats/benchmarking.py:232-233 | a defined rdf value lies in [0, 1] |
| Discriminability.RdfValueNonIncreasing | pynets/stats/benchmarking.py:232-233 | a larger same-label distance never gets a larger rdf value |
| Discriminability.RdfValueExtremes | pynets/stats/benchmarking.py:232-233 | the rdf value is 1 exactly when every other-label distance exceeds `d`, and 0 exactly when every one is below it |
| Discriminability.RdfRow | pynets/stats/benchmarking.py:221-234 | row `i`: one rdf value per other sample of its label, against the distances to the other labels; its properties are `RdfRowLength` and `RdfRowValues` |
| Discriminability.RdfRowLength | pynets/stats/benchmarking.py:221-233 | sample `i` gets one rdf value per other sample of its label |
| Discriminability.RdfRowValues | pynets/stats/benchmarking.py:221-233 | a row's defined values lie in [0, 1]; its values are NaN exactly when no sample carries another label |
| Discriminability.RdfTable | pynets/stats/benchmarking.py:236-238 | the padded table has one row per sample |
| Discriminability.RdfTableShape | pynets/stats/benchmarking.py:236-238 | the table has one row per sample; its width is the largest same-label count minus one, and some sample reaches it |
| Discriminability.RdfTableCell | pynets/stats/benchmarking.py:236-238 | each row holds its rdf values first and NaN after them; defined cells lie in [0, 1] |
| Discriminability.CheckXY | pynets/stats/benchmarking.py:159 | `check_X_y`'s shape tests, raising ValueError; what they decide for `discr_stat` and `_discr_rdf` is stated by `PrepareFailure`, `ComputedDistancesFailure`, `RdfError` and `DiscrRdf` |
| Discriminability.RdfError | pynets/stats/benchmarking.py:218-226 | `_discr_rdf` raises exactly when its input fails the check or its rows are not as wide as the label vector |
| Discriminability.DiscrRdf | pynets/stats/benchmarking.py:200-240 | raises the error `RdfError` names; otherwise returns a fresh array whose cells are the padded rdf table |
| Discriminability.PaddedArray | pynets/stats/benchmarking.py:236-238 | fills a fresh NaN array with the rows left-aligned |
| Discriminability.CollectRows | pynets/stats/benchmarking.py:219-234 | the loop over samples collects exactly the rdf rows |
| Discriminability.Masked | pynets/stats/benchmarking.py:191 | masking keeps the table's shape |
| Discriminability.MaskedCells | pynets/stats/benchmarking.py:191 | after masking, every defined rdf value lies in [0.5, 1] |
| Discriminability.NanMean | pynets/stats/benchmarking.py:192 | the NaN-ignoring mean is NaN exactly when every cell is NaN |
| Discriminability.NanMeanBounds | pynets/stats/benchmarking.py:192 | the NaN-ignoring mean of values in [0.5, 1] lies in [0.5, 1], and is NaN exactly when every cell is NaN |
| Discriminability.StatisticSpec | pynets/stats/benchmarking.py:190-192 | the statistic of a valid rdf table lies in [0.5, 1] and is NaN exactly when every masked cell is NaN, which is exactly when no rdf value reaches 0.5 |
| Discriminability.MaskedAllNaN | pynets/stats/benchmarking.py:191 | after `rdfs[rdfs < 0.5] = np.nan` every cell is NaN exactly when no value of the table reaches 0.5 |
| Discriminability.MaskBelowHalf | pynets/stats/benchmarking.py:191 | the array update replaces values below 0.5 by NaN and leaves every other cell |
| Discriminability.NanMeanOf | pynets/stats/benchmarking.py:192 | the loop computes the NaN-ignoring mean of the array |
| Discriminability.Pairwise | pynets/stats/benchmarking.py:179-186 | the pairwise distance matrix of the rows; what reaches `_discr_rdf` under a computed distance is stated by `ComputedDistances` |
| Discriminability.SubMatrix | pynets/stats/benchmarking.py:175 | `X[np.ix_(idx, idx)]`, with IndexError past the last column; its failure is stated by `PrepareFailure` and its result by `PrecomputedKept` |
| Discriminability.Prepare | pynets/stats/benchmarking.py:159-188 | a successful preparation yields a rectangular matrix and the labels kept by isolate removal; the three branches are stated by `ComputedDistances`, `MahalanobisUsesFeatures` and `PrecomputedKept` |
| Discriminability.PrecomputedKept | pynets/stats/benchmarking.py:162-188 | for any other dissimilarity name the input is used as given: with isolates removed, the matrix is n × n, for n kept samples, with cell (a, b) the input cell at the a-th and b-th kept positions, those positions increase, and row a belongs to the a-th kept label; otherwise matrix and labels pass unchanged |
| Discriminability.SelectAt | pynets/stats/benchmarking.py:164 | boolean indexing `Y[idx]` puts at position a the entry at the a-th true position of the mask |
| Discriminability.TrueIndicesIncreasing | pynets/stats/benchmarking.py:175 | the positions `np.ix_` takes from a boolean mask are strictly increasing |
| Discriminability.PrepareFailure | pynets/stats/benchmarking.py:159-188 | preparation fails exactly when the input check fails, or when a precomputed matrix is too narrow for a kept position |
| Discriminability.KeptRowsOnly | pynets/stats/benchmarking.py:162-177 | for feature-based dissimilarities the kept rows are the rows of non-isolated samples, one per kept label |
| Discriminability.ComputedDistances | pynets/stats/benchmarking.py:159-188 | for the four named metrics preparation fails only on the input check; it yields a square matrix over the kept rows with the metric's values |
| Discriminability.ComputedDistancesFailure | pynets/stats/benchmarking.py:159-192 | for the four named metrics `discr_stat` fails exactly when the input check fails or no label survives isolate removal |
| Discriminability.MahalanobisUsesFeatures | pynets/stats/benchmarking.py:171-188 | for `mahalanobis` the kept feature rows themselves reach `_discr_rdf`, which raises IndexError when their width differs from the number of kept labels |
| Discriminability.DiscrResult | pynets/stats/benchmarking.py:127-197 | a successful `discr_stat` returns one rdf row per kept label, and at least one |
| Discriminability.DiscrResultBounds | pynets/stats/benchmarking.py:127-197 | whenever `discr_stat` returns, the statistic lies in [0.5, 1] or is NaN exactly when the masked table is all NaN, and the table holds no value below 0.5 |
| Discriminability.DiscrStat | pynets/stats/benchmarking.py:127-197 | with the defaults `dissimilarity="euclidean"`, `remove_isolates=True`, `return_rdfs=True`: raises what `DiscrResult` raises; otherwise returns its statistic, and the masked table exactly when `return_rdfs` is set |
| Reshape.ConcatIndex | pynets/stats/benchmarking.py:245 | row-major flattening puts entry (i, j) at position i·v2 + j |
| Reshape.SplitConcat | pynets/stats/benchmarking.py:245 | splitting a flattened v1 × v2 matrix gives the matrix back |
| Reshape.ConcatSplit | pynets/stats/benchmarking.py:245 | flattening a split row gives the row back |
| Reshape.ReshapeGraphs | pynets/stats/benchmarking.py:243-245 | n matrices of v1 × v2 become n rows of length v1·v2 |
| Reshape.ReshapeIndex | pynets/stats/benchmarking.py:243-245 | entry (k, i, j) of the stack is entry (k, i·v2 + j) of the reshaped array |
| Reshape.ReshapeRoundTrip | pynets/stats/benchmarking.py:243-245 | reshaping and reshaping back are mutually inverse |
| FigureNames.RsnSegment | pynets/plotting/plot_graphs.py:160-161 | `rsn-<network>_` when a network is given, empty otherwise; `RsnDecode` reads it back |
| FigureNames.RoiSegment | pynets/plotting/plot_graphs.py:162-164 | `roi-<stem>_` when a region file is given, empty otherwise; `RoiDecode` reads it back, and `Text.Stem` states the stem |
| FigureNames.NodeSegment | pynets/plotting/plot_graphs.py:166-171 | `nodetype-spheres-<size>mm_` for a size other than `parc`, `nodetype-parc_` otherwise; `NodeDecode` reads it back |
| FigureNames.SmoothSegment | pynets/plotting/plot_graphs.py:172-173 | `smooth-<s>fwhm_` when `float(smooth) > 0`, empty otherwise; `FuncPathParts` places it |
| FigureNames.HpassSegment | pynets/plotting/plot_graphs.py:174-175 | `hpass-<h>Hz_` when a cutoff is given, empty otherwise; `FuncPathParts` places it |
| FigureNames.ExtractSegment | pynets/plotting/plot_graphs.py:176-178 | `extract-<e>_` when a strategy is given, empty otherwise; `FuncPathParts` places it |
| FigureNames.SamplesSegment | pynets/plotting/plot_graphs.py:286-288 | `samples-<int(target_samples)>streams_` when the target is positive, `_` otherwise; `SamplesSegmentDecode` reads it back |
| FigureNames.FuncAdjPath | pynets/plotting/plot_graphs.py:159-179 | the `%s` format of the functional adjacency path; `FuncPathParts` and `FuncPathFrame` state its shape |
| FigureNames.FuncCommPath | pynets/plotting/plot_graphs.py:197-216 | the functional community path; `FuncCommPathSuffix` relates it to the adjacency path |
| FigureNames.DwiAdjPath | pynets/plotting/plot_graphs.py:273-291 | the `%s` format of the diffusion adjacency path; `DwiPathParts` and `DwiPathFrame` state its shape |
| FigureNames.DwiCommPath | pynets/plotting/plot_graphs.py:309-330 | the diffusion community path; `DwiCommPathSuffix` relates it to the adjacency path |
| FigureNames.FuncCommPathSuffix | pynets/plotting/plot_graphs.py:197-216 | the functional community figure path (197-216) is the adjacency path (159-179) with the final `_adj_mat.png` replaced by `_adj_mat_comm.png` |
| FigureNames.DwiCommPathSuffix | pynets/plotting/plot_graphs.py:309-330 | the diffusion community figure path (309-330) is the adjacency path (273-291) with the final `_adj_mat.png` replaced by `_adj_mat_comm.png` |
| FigureNames.FuncPathParts | pynets/plotting/plot_graphs.py:159-179 | the functional path is the head, the shared segments, the optional smoothing, high-pass and extraction segments, and the threshold tail, in order |
| FigureNames.FuncPathFrame | pynets/plotting/plot_graphs.py:159-179 | the functional path starts with the directory, subject and shared segments, ends with `_thr-<thr>_adj_mat.png`, and contains `__thr-` because the segment before the threshold ends in `_` |
| FigureNames.DwiPathParts | pynets/plotting/plot_graphs.py:273-291 | the diffusion path is the head, the shared segments, the samples segment and `tt-<track_type>_dg-<directget>_ml-<min_length>_thr-<thr>_adj_mat.png`, in order |
| FigureNames.DwiPathFrame | pynets/plotting/plot_graphs.py:273-291 | the diffusion path starts with the head and shared segments and ends with the tracking, direction, length and threshold tags |
| FigureNames.LeadingSegmentsDecode | pynets/plotting/plot_graphs.py:159-171 | the shared segments can be read back: `rsn-` leads exactly when a network is given, then `roi-` exactly when a region is given, then `est-<model>_` and the node segment |
| FigureNames.RsnDecode | pynets/plotting/plot_graphs.py:160-161 | a path reads `rsn-` at this point exactly when a network is given |
| FigureNames.RoiDecode | pynets/plotting/plot_graphs.py:162-165 | a path reads `roi-` at this point exactly when a region file is given, and never `rsn-` |
| FigureNames.NodeDecode | pynets/plotting/plot_graphs.py:166-171 | the node segment reads `nodetype-spheres-` exactly when a size other than `parc` is given, and `nodetype-parc_` otherwise |
| FigureNames.SamplesSegmentDecode | pynets/plotting/plot_graphs.py:286-288 | a positive sample count gives `samples-<digits>streams_` whose digits are its integer part; otherwise the segment is `_` |
| FigureNames.Truncate | pynets/plotting/plot_graphs.py:286 | `int()` of a positive number is its integer part |
| CommunityLayout.SortingArray | pynets/plotting/plot_graphs.py:75 | `sorting_array` has one index per node, each a valid node index |
| CommunityLayout.SortingArraySpec | pynets/plotting/plot_graphs.py:75 | `sorting_array` is a permutation of the node indices, ordered by community with ties in index order (a stable sort) |
| CommunityLayout.StableSortUnique | pynets/plotting/plot_graphs.py:75 | any two stably sorted permutations of the same indices are equal, so the sorting array is the one `sorted` returns |
| CommunityLayout.SortedMatrix | pynets/plotting/plot_graphs.py:76-77 | fancy indexing fails exactly when the affiliation vector is longer than the matrix |
| CommunityLayout.SortedMatrixAt | pynets/plotting/plot_graphs.py:76-77 | entry (i, j) of the sorted matrix is entry (p[i], p[j]) of the original |
| CommunityLayout.SortedMatrixSymmetric | pynets/plotting/plot_graphs.py:76-77 | permuting rows and columns alike keeps a symmetric matrix symmetric |
| CommunityLayout.SortedMatrixCovers | pynets/plotting/plot_graphs.py:76-77 | every entry among the sorted nodes appears somewhere in the sorted matrix |
| CommunityLayout.SortedValuesSorted | pynets/plotting/plot_graphs.py:95 | the communities read along the sorting array are non-decreasing |
| CommunityLayout.SortedValuesPermutation | pynets/plotting/plot_graphs.py:95 | the communities read along the sorting array are a permutation of the affiliation vector |
| CommunityLayout.Unique | pynets/plotting/plot_graphs.py:94 | `np.unique(community_aff)` as the distinct values of the sorted vector; `UniqueSpec` states it |
| CommunityLayout.UniqueSpec | pynets/plotting/plot_graphs.py:94 | `np.unique` is strictly increasing and holds exactly the communities that occur |
| CommunityLayout.BlockOf | pynets/plotting/plot_graphs.py:93-106 | the square for the t-th community: it starts after the smaller communities and is as large as community t; `BlockSize`, `BlockChain` and `BlockCovers` state it |
| CommunityLayout.BlockSize | pynets/plotting/plot_graphs.py:95 | each block's size is the number of nodes in its community |
| CommunityLayout.BlockChain | pynets/plotting/plot_graphs.py:93-106 | the first block starts at 0, each later block starts where the previous one ends, and the last one ends at the number of nodes |
| CommunityLayout.BlockCovers | pynets/plotting/plot_graphs.py:92-106 | position q lies in block t exactly when the q-th sorted community is the t-th distinct community |
| CommunityLayout.BlockLayout | pynets/plotting/plot_graphs.py:92-106 | the loop draws one square per community, sized by its member count and placed end to end from 0; the final running total is the number of nodes; each square covers exactly the positions of its community in sorted order |
| CommunityLayout.SortedSquaresMatch | pynets/plotting/plot_graphs.py:75-106 | over the sorted matrix, every entry inside square t joins two members of community t |
| CommunityLayout.UnsortedDisplayMismatch | pynets/plotting/plot_graphs.py:73-106 | with affiliations [1, 0] the first square, that of community 0, covers a node of community 1 in the matrix the figure shows |
| Text.SecondPiece | pynets/stats/benchmarking.py:52 | `s.split(sep)[1]` is missing (IndexError) exactly when `sep` does not occur; `SecondPieceSpec` states its value |
| Text.BeforeFirst | pynets/stats/benchmarking.py:52 | `s.split(sep)[0]` is a prefix of `s` without `sep`; it is shorter than `s` exactly when `sep` occurs, and then `sep` follows it |
| Text.Stem | pynets/plotting/plot_graphs.py:163 | `op.basename(roi).split('.')[0]` is a prefix of the basename that holds neither `/` nor `.` and runs to the basename's first `.` or its end |
| Text.DotCut | pynets/plotting/plot_graphs.py:163 | `b.split('.')[0]` is the prefix of `b` before its first `.`, or all of `b` |

## Left out

- `thresholding.binarize`, `thresholding.standardize` and the product at plot_graphs.py:71-73 are not part of this model. The sorted matrix is modelled for any square matrix.
- Rendering is not modelled: `plot_matrix`, `Rectangle` styling, `savefig`, the colour map read from `runconfig.yaml`, and the `RuntimeWarning` handler.
- Louvain community detection (`community_resolution_selection`) is not modelled. The community vector is an input.
- The scikit-learn distance functions are not modelled. They are the parameter `metric`, so no property of a particular metric is proved.
- `check_X_y`'s rejection of NaN and infinite values is not modelled, and neither is haversine's two-feature requirement. Numbers are mathematical reals, with NaN as `None`.
- Discriminability.DiscrStat: requires a rectangular matrix, because a numpy array cannot be ragged. The distance function is its third parameter, before the defaulted ones, because it has no default.
- The docstring of `discr_stat` gives `return_rdfs` the default `False`, while its signature gives `True`. The model follows the signature.
- `CronbachAlpha` and the rest of benchmarking.py are not part of this model.
- Floating-point rounding in the rdf values and the mean is not modelled.
- HpDict.Distinct: keeps first occurrences in order, while `list(set(...))` has an unspecified order. Only the membership and no-duplicate properties are claimed.
- FigureNames.SmoothSegment: `float(smooth)` is given as a number together with its text. A `smooth` of `None` or non-numeric text raises TypeError or ValueError in Python, and that is not modelled.
- FigureNames.Truncate: only positive sample counts reach `int()`. A `target_samples` text that `int()` rejects (such as `"2.5"` or `"1e4"`) raises ValueError in Python, and that is not modelled.
- FigureNames: a `roi` of `None` is `Option.None`. Other parameters are the text `%s` prints for them.
- CommunityLayout.SortedMatrix: requires a square matrix, as an adjacency matrix is.
- `plot_conn_mat_func` and `plot_conn_mat_struct` also read `runconfig.yaml` and call the plotting routines. Only their four path expressions are modelled.

## Findings

| source | as written | input that shows it | evidently intended | confidence | as-written member | corrected member |
|---|---|---|---|---|---|---|
| pynets/plotting/plot_graphs.py:73-106 | the squares, placed by the sorted community vector, are drawn over the unsorted `conn_matrix_plt` (lines 81 and 87); the sorted matrix of lines 76-77 only gives `rois_num` | `community_aff = [1, 0]`: the first square, that of community 0, covers position 0, which shows node 0 of community 1 | draw the sorted matrix, so that each square frames one community | not executed | CommunityLayout.UnsortedDisplayMismatch | CommunityLayout.SortedSquaresMatch |
