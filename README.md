# FlowCal gates in Dafny

This project models three gate functions from FlowCal's `fc/gate.py` and
proves properties of them. A gate filters an N x D array of flow-cytometry
events (one row per event, one column per channel).

- `start_end` trims the first `num_start` and the last `num_end` events. It
  builds an all-true Boolean mask and clears two slices of it.
- `high_low` keeps an event when every selected channel value lies strictly
  between `low` and `high`.
- `density2d` keeps the events in the densest region of a 2D histogram. The
  model covers everything from the channel checks to the gated rows. That
  means the binning of each event (`np.digitize` reconciled with
  `np.histogram2d`'s closed last bin), the loop that appends row indices to
  per-cell lists and counts `N`, the target `n = ceil(gate_fraction * N)`, the
  order of the cells by density, the cut index `Nidx`, and the sorted index
  array `mask`.

Layout, one module per file:

- `common.dfy` (`GateCommon`): the errors the gates raise, `Option`, `Result`,
  `Sum`, `Range`.
- `points.dfy` (`Points`): the event matrix, `data[:, c]`, and the two ways
  of indexing rows: a Boolean mask and an integer index array.
- `start_end.dfy` (`StartEndGate`): the trim gate on a Dafny array, with
  Python's slice-bound normalisation written out.
- `high_low.dfy` (`HighLowGate`): the interval gate as functions.
- `binning.dfy` (`Binning`): bin indices, flattened cells, and the imperative
  accumulation loop over a `new seq<nat>[nx * ny]` array of lists.
- `selection.dfy` (`Selection`): target count, density order, cumulative-sum
  cut, flatten and sort, and the lemmas about the selection.
- `density.dfy` (`Density2dGate`): `density2d` put together.

Inputs the model does not compute:

- The density field (the Gaussian-blurred histogram) is given as one real per
  cell, flattened row-major like `D.ravel()`. `NormalisingKeepsComparisons`
  and `ArgsortSameComparisons` show that dividing it by its positive sum does
  not change the order of the cells.
- The histogram edges are given as strictly increasing sequences of at least
  two values.
- Values are exact reals, and `gate_fraction` is an exact real.

Notes on what the code does:

- The density gate's `mask` is a sorted array of row indices
  (fc/gate.py:302-304). `Points.IndexArrayIsMask` proves that it selects the
  same rows as the Boolean mask that is true exactly at those indices.
- When the cumulative count never reaches `n`,
  `np.nonzero(csvH >= n)[0][0]` (fc/gate.py:298) raises `IndexError`, which
  the model names `TargetUnreachable`. `Selection.SelectionFailsIff` and
  `Selection.TargetAtMostTotal` show this happens exactly when `n > N`, that
  is when `gate_fraction > 1` and `N > 0`.
- Each error is modelled as the one the code raises: a `ValueError` in
  `start_end` (fc/gate.py:65-66), the two assertions of `density2d`
  (fc/gate.py:214-221), and the `IndexError` of indexing a channel that is
  not a column.
- Ties in density are ordered by `np.argsort(vD)[::-1]` (fc/gate.py:292),
  whose order among equal keys numpy does not define. The model fixes one
  deterministic order: among equal densities, the higher flattened index
  comes first. That is what a stable ascending argsort gives once reversed.
  Most lemmas about the selection (`SelectDensest`, `SelectionFailsIff`,
  `DensestRows`, `CutIsShortest`, `TargetMonotone`) hold for any order that
  lists each cell once. `DensestCellsKept` and `DensestEventsKept` hold for
  any such order that also sorts by non-increasing density
  (`IsDensityOrder`). `KeepsDensest` and the lemmas and methods of
  `density.dfy` are stated for the fixed order `ArgsortDescending`.

## Model

| member | source | states |
|---|---|---|
| StartEndGate.SliceBound | fc/gate.py:70-71 | a slice bound counts from the end when negative and is clipped to 0..n |
| StartEndGate.SliceMask | fc/gate.py:69-71 | the mask has one entry per event. When num_start >= 0, num_end > 0 and num_start + num_end <= N, entry i is true iff num_start <= i < N - num_end. When num_end == 0, every entry is false |
| StartEndGate.StartEndMask | fc/gate.py:65-71 | ValueError exactly when N < num_start + num_end. Otherwise the mask is the two slice assignments applied to an all-true array: entry i is true iff num_start <= i < N - num_end when num_end > 0, and every entry is false when num_end == 0 |
| StartEndGate.StartEnd | fc/gate.py:65-77 | same error condition. The gated rows are data[mask]: exactly data[num_start .. N - num_end] when num_end > 0, and nothing when num_end == 0 |
| StartEndGate.StartEndKeepsMiddle | fc/gate.py:69-72 | for num_end > 0 the gate keeps the contiguous block data[num_start .. N - num_end], in order |
| StartEndGate.ZeroEndDiscardsAll | fc/gate.py:71-72 | as written, num_end == 0 gates out every event, whatever num_start is |
| StartEndGate.ZeroEndCounterexample | fc/gate.py:71 | five events with num_start = num_end = 0: the code keeps none, the intended gate keeps all five |
| StartEndGate.IntendedKeepsMiddle | fc/gate.py:54 | the intended mask keeps exactly data[num_start .. N - num_end] for every admissible pair of counts, num_end == 0 included |
| StartEndGate.StartEndCorrected | fc/gate.py:53-77 | the corrected gate has the same error condition and keeps exactly data[num_start .. N - num_end] |
| StartEndGate.IntendedAgreesWhenEndPositive | fc/gate.py:69-71 | the code as written and the corrected mask agree whenever num_end > 0 |
| HighLowGate.AllInside | fc/gate.py:122 | np.all over one row is true iff every value is strictly inside the bounds |
| HighLowGate.HighLowMask | fc/gate.py:97-122 | IndexError exactly when a channel is not a column. Otherwise the mask has one entry per event, true iff every selected value v has low < v < high (a missing bound is -inf or +inf, and no channels means every column, as `HighLowGate.GateChannels` picks at fc/gate.py:98-101) |
| HighLowGate.HighLow | fc/gate.py:121-128 | same error condition. The output carries that mask and data[mask] |
| HighLowGate.HighLowGatedRows | fc/gate.py:122-123 | the gated rows are the data at the increasing positions np.nonzero(mask), and those positions are exactly the rows inside the bounds |
| HighLowGate.BoundsExcluded | fc/gate.py:82-83 | a value equal to either bound gates its event out |
| HighLowGate.WiderBoundsKeepMore | fc/gate.py:122 | loosening either bound never gates out an event that was kept |
| Points.TrueIndices | fc/gate.py:72 | np.nonzero(mask) is strictly increasing and holds exactly the positions of the true entries |
| Points.Select | fc/gate.py:72 | data[mask] is no longer than the data. Its contents are stated by Points.SelectIsGather |
| Points.SelectIsGather | fc/gate.py:72 | data[mask] is the rows at the positions of the true entries, in their original order |
| Points.Gather | fc/gate.py:305 | data[idx] for an integer index array has one row per index. Points.IndexArrayIsMask states that for density2d's sorted index array these are the rows data[mask] selects |
| Points.Column | fc/gate.py:215 | one column of data_ch = data[:, channels]: one value per event, entry i being event i's value on that channel |
| Points.IndexArrayIsMask | fc/gate.py:304-305 | a strictly increasing array of valid row indices is the np.nonzero of the Boolean mask true at those indices, and selects the same rows |
| Points.SelectBlock | fc/gate.py:69-72 | a mask true exactly on positions lo .. hi - 1 selects data[lo..hi] |
| Binning.DigitizeBrackets | fc/gate.py:240-241 | np.digitize returns k with edges[k-1] <= x < edges[k], where the missing ends are unbounded |
| Binning.Digitize | fc/gate.py:240-241 | np.digitize counts the edges at or below the value, so its result lies in 0 .. len(edges). Binning.DigitizeBrackets states which edges bracket the value |
| Binning.BinIndex | fc/gate.py:240-252 | the reconciled bin index lies in -1 .. len(edges) - 1. Binning.BinIndexSpec states which bin it is |
| Binning.BinIndices | fc/gate.py:240-252 | ix and iy hold one reconciled bin index per event, entry k being the bin of event k |
| Binning.BinIndexSpec | fc/gate.py:240-264 | the reconciled bin index is -1 below the first edge and len(edges) - 1 above the last one. Between the edges it is the histogram bin of the value, with the last edge in the last bin, and it is b iff the value is in histogram bin b |
| Binning.FlatCell | fc/gate.py:260-270 | the flattened cell is -1 exactly when an index is an outlier on either axis, and otherwise lies in 0 .. nx*ny - 1 |
| Binning.FlatCellInjective | fc/gate.py:270 | distinct (x bin, y bin) pairs give distinct flattened cells, as Hi[xi, yi] after Hi.ravel() |
| Binning.OutlierIffOutsideEdges | fc/gate.py:251-264 | an event is dropped as an outlier exactly when some value lies outside the edge range. A value equal to the last edge is kept |
| Binning.CellIsHistogramCell | fc/gate.py:230-252 | an in-range event's cell is (i, j) exactly when np.histogram2d would count it in bin (i, j), so the length of a cell's list is its raw count H[i, j] |
| Binning.RowsIn | fc/gate.py:266-271 | the rows whose cell lies in a set, strictly increasing, valid row indices |
| Binning.AccumulateBins | fc/gate.py:266-271 | after the loop, cell c's list is exactly the rows whose cell is c, in row order. N is the number of rows in some cell |
| Binning.BinsPartition | fc/gate.py:266-271 | every in-range row is in exactly the list of its own cell, no outlier is in any list, and the list lengths sum to N |
| Binning.FlattenBins | fc/gate.py:302-303 | concatenating the lists of distinct cells gives each event of those cells once |
| Binning.FlattenLength | fc/gate.py:303 | the flattened list of lists (`Binning.Flatten`) is as long as the sum of the lengths of the lists |
| Selection.Ceil | fc/gate.py:275 | np.ceil(x) is the least integer at or above x: x <= c < x + 1 |
| Selection.TargetCount | fc/gate.py:275 | n = ceil(gate_fraction * N): gate_fraction * N <= n < gate_fraction * N + 1, and n >= 0 for a non-negative fraction |
| Selection.TargetCountMonotone | fc/gate.py:275 | a larger gate_fraction never asks for fewer events |
| Selection.TargetAtMostTotal | fc/gate.py:275 | n <= N exactly when gate_fraction <= 1 or N == 0 |
| Selection.CutIndex | fc/gate.py:297-298 | Nidx is the first position whose cumulative count `Selection.Cumsum` (np.cumsum(svH)) reaches n; there is none when no prefix reaches n |
| Selection.CutIndexExists | fc/gate.py:297-298 | Nidx exists exactly when there is a cell and n <= the total count |
| Selection.CutIndexMonotone | fc/gate.py:297-298 | for a fixed order a smaller target never gives a later cut |
| Selection.SortedCounts | fc/gate.py:293 | svH = vH[sidx] has one count per cell of the order. Selection.PrefixRows and Selection.TotalCount state what its prefix sums count |
| Selection.Picked | fc/gate.py:302 | vHi[sidx[:m]] holds one list for each of the first m cells of the order. Selection.PrefixRows states that together they hold exactly the events of those cells |
| Selection.CutIsShortest | fc/gate.py:297-298 | every prefix of the order shorter than Nidx + 1 cells holds fewer than n in-range events, so the kept prefix is the shortest one that reaches n |
| Selection.ArgsortDescending | fc/gate.py:292 | the order lists every cell exactly once, densest first |
| Selection.NormalisingKeepsComparisons | fc/gate.py:287 | D = sH / sum(sH) compares every pair of cells as sH does |
| Selection.ArgsortSameComparisons | fc/gate.py:287-292 | two density fields that compare every pair alike give the same order |
| Selection.SortAscending | fc/gate.py:304 | np.sort returns an ascending permutation of its input |
| Selection.SortedUnique | fc/gate.py:304 | two ascending sequences with the same elements, counted with multiplicity, are equal |
| Selection.SelectDensest | fc/gate.py:290-304 | IndexError exactly when no cut exists. Otherwise the cut is Nidx, the mask is ascending, it is a permutation of the concatenated lists of the first Nidx + 1 cells, and its length is that prefix's cumulative count, which is at least n |
| Selection.PermutationOfCells | fc/gate.py:292 | a permutation of the cells has one entry per cell, all in range and distinct |
| Selection.PrefixRows | fc/gate.py:301-303 | the concatenated lists of the first m cells hold exactly the events of those cells, and their number is the prefix sum of svH |
| Selection.TotalCount | fc/gate.py:291-297 | the counts in any cell order sum to N |
| Selection.SelectionFailsIff | fc/gate.py:297-298 | the selection fails exactly when there are no cells or n > N |
| Selection.NoEventsKeepsNothing | fc/gate.py:275-304 | with no in-range events (N == 0), n is 0, Nidx is 0 and the index list is empty, for any order of the cells, so the NaN density field numpy builds in that case does not change the result |
| Selection.DensestRows | fc/gate.py:300-304 | the mask is exactly the in-range events whose cell is among the first Nidx + 1 cells, strictly increasing |
| Selection.TargetMonotoneCount | fc/gate.py:297-304 | for a fixed order a larger target never gives a shorter cut or fewer kept events |
| Selection.TargetMonotone | fc/gate.py:297-304 | for a fixed order a larger target keeps every event a smaller one keeps |
| Selection.FractionMonotone | fc/gate.py:275-304 | raising gate_fraction never drops a kept event and never keeps fewer |
| Selection.DensestCellsKept | fc/gate.py:292-302 | every kept cell is at least as dense as every cell after the cut |
| Selection.DensestEventsKept | fc/gate.py:292-304 | every kept event lies in a cell at least as dense as that of any in-range event that is gated out |
| Density2dGate.EventCells | fc/gate.py:215-264 | each event's cell on the two gating channels, -1 exactly when a value lies outside the edges |
| Density2dGate.InRangeCount | fc/gate.py:266-271 | N never exceeds the number of events |
| Density2dGate.SelectionOutcome | fc/gate.py:290-305 | with the binner's lists, the selection fails exactly when n > N. Otherwise it keeps the events of the first Nidx + 1 cells: at least n of them while every shorter prefix holds fewer than n, strictly increasing, the densest, and data[mask] equals the Boolean-mask selection |
| Density2dGate.SelectionKept | fc/gate.py:290-305 | when the selection succeeds, its output satisfies KeepsDensest, including that every shorter prefix of the order holds fewer than n events |
| Density2dGate.GateDensest | fc/gate.py:229-305 | once the checks pass: IndexError exactly when n > N, and a result otherwise. That result satisfies KeepsDensest: the events of the first Nidx + 1 cells of the density order, at least n of them, where every shorter prefix holds fewer than n, so Nidx is the first cut reaching n; each kept event at least as dense as every in-range event gated out; the gated rows are data[mask] |
| Density2dGate.Density2d | fc/gate.py:213-305 | an assertion error for a channel count other than two, IndexError for a channel that is not a column, an assertion error for at most one event, and IndexError exactly when n > N. Every input that passes the checks gives either that IndexError or a result, and the result satisfies KeepsDensest: the index list is the in-range events of the first Nidx + 1 cells of the density order, there are at least n of them while every shorter prefix of the order holds fewer than n (so the cut is Nidx), each is at least as dense as every in-range event gated out, and the gated rows are data[mask] in row order |

## Left out

- `ellipse` (fc/gate.py:130-189) is not modelled. It is floating-point trigonometry, `log10` and a sampled contour.
- The Gaussian blur and the division by `np.sum(sH)` (fc/gate.py:278-287) are not computed. The density field is an input. The sum of the blurred histogram is zero exactly when N == 0, because every count is non-negative and the kernel is positive at its centre. numpy then divides with a warning and gives a NaN field, not an error. In that case `Selection.NoEventsKeepsNothing` shows that the selection keeps nothing with cut 0 whatever the density order, which is what the remaining steps compute, apart from the float dtype noted below for an empty index array.
- Automatic edges from `np.histogram2d` when `bins` is None (fc/gate.py:230) are not computed. The edges are an input.
- Contour tracing with `matplotlib._cntr` and its path-code check (fc/gate.py:307-329) is not modelled, because it is foreign C code.
- The `channel_info` defaults for the bounds and the bins (fc/gate.py:105-119, 224-227) are not modelled, because they need instrument metadata. `high_low` takes its bounds as given, with None meaning +inf or -inf.
- Per-channel arrays of bounds in `high_low` are not modelled. The bounds are one scalar each.
- Negative channel indices are not modelled. Channels are naturals, and a channel at or past the width is the `IndexError` path.
- NaN values and floating-point rounding are not modelled. Values and `gate_fraction` are exact reals, and `Selection.Ceil` is an exact ceiling.
- `full_output` and the namedtuples are not modelled. Every model returns the full output, less the contour.
- Selection.ArgsortDescending: fixes one tie order among equal densities, where numpy's order is not specified. The lemmas about the selection hold for any density order.
- Density2dGate.Density2d: when the kept cells hold no events, numpy builds the empty index array with a float dtype. The model returns empty gated data, and does not model what numpy does when it indexes with that array.
- Default arguments are not modelled: `num_start=250, num_end=100` (fc/gate.py:53) and `channels=[0,1], gate_fraction=0.65, sigma=10.0` (fc/gate.py:191-192). Every model takes these values as explicit parameters, and `sigma` only shapes the density field, which is an input.
- The shape checks of `density2d` for one-dimensional data (fc/gate.py:216-220) are not modelled. Data here is always an N x D matrix.

## Findings

| source | as written | input that shows it | evidently intended | confidence | as-written member | corrected member |
|---|---|---|---|---|---|---|
| fc/gate.py:71 | `mask[-num_end:] = False` with `num_end == 0` is `mask[0:] = False`, so every event is gated out | five events, `num_start = 0`, `num_end = 0`: mask is all False | discard nothing at the end, keep events num_start .. N - 1 | high, not executed | StartEndGate.ZeroEndCounterexample | StartEndGate.StartEndCorrected |
