# Intensity-based masking: threshold selection and mask building

This project models the core of `DTseries.createMask`. The tool computes one temporal
mean per spatial location of a brain-imaging time series. It samples a density fitted to
those means on an evenly spaced grid that spans their range. It finds the strict local
minima of the sampled density and takes as threshold the grid value at the rightmost one.
It then marks with 1.0 every location whose mean is at or below the threshold.

Modules (one concern each, all over Dafny `real`):

- `Outcomes` (outcomes.dfy): the exceptions the modelled `createMask` raises (see "Left out" for the empty mean vector), plus `Result`, `Option` and `Outcome`.
- `Stats` (stats.dfy): sum, mean, minimum and maximum, and the per-row temporal means.
- `Grid` (grid.dfy): `np.linspace` and the density sampled on the grid.
- `Minima` (minima.dfy): `argrelextrema(y, np.less)` with its default order 1 and clip mode.
- `Threshold` (threshold.dfy): `np.max` of the grid values at the found minima.
- `Mask` (mask.dfy): the mask as a value, and the in-place fill of a zero array.
- `DTSeries` (dtseries.dfy): the `DTseries` object. Its fields are assigned step by step by
  `CreateMask`. The module also holds lemmas about the whole pipeline.

The fitted density is a parameter of type `real -> real`. Because it is a function,
equal grid points always get equal samples.

`np.linspace` accepts any non-negative size. Sizes below 3 find no minimum
(`Minima.ShortHasNoMinima`), and a one-point grid is `[min]`.

## Model

| member | source | states |
|---|---|---|
| Stats.Mean | main.py:34 | a location's mean lies between the smallest and largest of its samples |
| Stats.MeanOfConstant | main.py:34 | a location whose samples are all c has mean c |
| Stats.RowMeans | main.py:34 | one mean per location, in location order, each within that location's sample range |
| Stats.Min | main.py:43 | `min()` of the means is one of the means and no mean is smaller |
| Stats.Max | main.py:44 | `max()` of the means (reused for `np.max`) is one of the values and none is larger |
| Grid.Linspace | main.py:43-45 | the grid has exactly n points, the first is the minimum, and for n >= 2 the last is the maximum |
| Grid.LinspaceNonDecreasing | main.py:43-45 | on an ascending range the grid is non-decreasing |
| Grid.LinspaceWithin | main.py:43-45 | every grid point lies in [min, max], and on a proper range every point but the last is strictly below max |
| Grid.LinspaceUniform | main.py:43-45 | neighbouring points are exactly (max - min) / (n - 1) apart |
| Grid.LinspaceConstant | main.py:43-45 | a grid over a single value repeats that value |
| Grid.Sample | main.py:48 | the density samples pair one to one with the grid points |
| Grid.SampleRespectsEqualPoints | main.py:48 | coinciding grid points get equal density samples |
| Minima.Clip | main.py:51 | clip mode maps any index into range and leaves in-range indices alone |
| Minima.ClippedMinIsInteriorMin | main.py:51 | the clip-mode test holds at an index exactly when it is an interior index strictly below both neighbours |
| Minima.MinimaFrom | main.py:51 | the scan from index i reports, in strictly increasing order, exactly the indices from i on that pass the clip-mode test |
| Minima.LocalMinima | main.py:51 | the scan reports an index iff it is an interior strict local minimum, all in 1..n-2, strictly increasing, and is empty iff no index qualifies |
| Minima.EndpointsNeverMinima | main.py:51 | the first and last sample are never reported |
| Minima.ShortHasNoMinima | main.py:51 | fewer than three samples yield no minima |
| Minima.DecreasingHasNoMinima | main.py:51 | a strictly decreasing density yields no minima |
| Minima.IncreasingHasNoMinima | main.py:51 | a strictly increasing density yields no minima |
| Minima.FlatHasNoMinima | main.py:51 | a constant density yields no minima |
| Threshold.Gather | main.py:52 | fancy indexing yields one grid value per found index |
| Threshold.SelectThreshold | main.py:52 | no minimum means the NoMinimumFound error and never a value; otherwise the threshold is the grid value at some found minimum and at least the grid value at every found minimum |
| Threshold.ThresholdIsRightmostMinimum | main.py:52 | on a non-decreasing grid with increasing minima the threshold is the grid value at the last minimum |
| Mask.MaskOf | main.py:64-67 | the mask has the means' length, holds only 0.0 and 1.0, and is 1.0 exactly where the mean is at or below the threshold |
| Mask.MaskMonotone | main.py:67 | a location whose mean is at most that of a marked location is marked |
| Mask.MaskGrowsWithThreshold | main.py:67 | raising the threshold never unmarks a location |
| Mask.MarkAtOrBelow | main.py:67 | the in-place assignment writes 1.0 where the mean is at or below the threshold and leaves every other entry as it was |
| Mask.BuildMask | main.py:64-67 | a fresh zero-filled array, once marked, equals the mask value |
| DTSeries.GridFor | main.py:43-45 | the grid over the means' range has the requested number of points |
| DTSeries.MinimaFor | main.py:48-51 | every minimum found on an n-point grid lies in 1..n-2 |
| DTSeries.ThresholdAtRightmostMinimum | main.py:43-52 | for any density samples of the grid's length that have a local minimum, the threshold is the grid value at the rightmost minimum |
| DTSeries.ConstantMeansHaveNoThreshold | main.py:43-52 | means that are all equal always end in the NoMinimumFound error |
| DTSeries.ThresholdSplitsMeans | main.py:43-52 | a threshold lies at or above the smallest mean and strictly below the largest |
| DTSeries.MaskIsProperSplit | main.py:43-67 | when a threshold exists the mask marks at least one location and leaves at least one unmarked |
| DTSeries.DTseries.constructor | main.py:19-37 | the object keeps the row means of the matrix and the density, and has no grid, threshold or mask yet. Its invariant says the threshold and the mask always come from the same successful call |
| DTSeries.DTseries.CreateMask | main.py:40-67 | the grid size defaults to 1024. Empty means and a negative grid size raise before anything is assigned. Otherwise grid, samples and minima are assigned. With no minimum it raises NoMinimumFound and leaves the threshold and mask as they were. Otherwise the threshold is the selected value and the mask is a fresh array equal to the mask value |

## Left out

- Loading the CIFTI file and transposing it (main.py:28-31) is file I/O through a foreign library. The constructor takes the (locations x timepoints) matrix instead. The path, subject, output directory and scanner fields are not modelled.
- Fitting and evaluating the Gaussian kernel density estimate (main.py:37, 48) is floating-point numerics inside SciPy. The density is an arbitrary `real -> real` parameter.
- DTSeries.DTseries.constructor: does not raise where fitting the density at main.py:37 does, which is for an empty mean vector, a single value, or all-equal values. So `CreateMask`'s `EmptyMeanVector` branch and `DTSeries.ConstantMeansHaveNoThreshold` cover inputs that the program rejects earlier, in the constructor.
- Floating-point rounding in `np.linspace`, `np.mean` and the comparisons is idealised as exact `real` arithmetic. NaN values are not modelled.
- Stats.RowMeans: requires every location to have at least one timepoint. With zero timepoints, `np.mean` yields NaN, which is not modelled.
- Plotting (main.py:55-61) has no effect on the mask. `CreateMask` models the `plot=False` path, which is the one the command-line driver uses. A failure while saving the plot is not modelled.
- `writeOut` (main.py:70-73) is filesystem output.
- The command-line argument-count check and driver (main.py:81-95) are process plumbing.
- The claim that a finer grid moves the threshold by at most one coarse grid step is a statistical sanity property, not an exact one, so it is not stated. Determinism holds trivially, because every model function is a mathematical function.
