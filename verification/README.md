# SAXS curve arithmetic in Dafny

This project models the core of a small-angle X-ray scattering (SAXS) analysis
toolkit. A scattering curve is a `ScatterData` record with three vectors: the
momentum transfer `q`, the intensity `i` and the experimental `error`. An empty
error vector is the marker for "error not tracked". On top of this record the
toolkit builds pointwise curve arithmetic:

- difference curves between a "light" and a "dark" state;
- buffer subtraction with a scale factor;
- piecewise-linear interpolation onto a target grid, with numpy's `np.interp`
  semantics;
- the two objectives that are minimised to fit a scale factor between two
  curves (a chi-square objective and a sum of squared errors);
- the radius-of-gyration difference between paired models.

Floating-point numbers are modelled as `real`.

Modules, one per source file:

- `saxs.dfy` (`Saxs`): the record as a value (`Curve`) and as the mutable class
  `ScatterData`, with the no-file constructor and `set_data`.
- `elementwise.dfy` (`Elementwise`): numpy's whole-vector `-`, `+`, `* c` and
  `/ 2` on equal-length vectors, and the sortedness predicates of the sample axis.
- `methods.dfy` (`Methods`): `calc_diff`, `buffer_sub`, `interpolate` and the
  objectives of `chi_square` and `SSE`. Each operation is a function on
  `Curve` values. Where the source builds a fresh `ScatterData` and fills it
  with `set_data`, a method does the same and is proved to give an object whose
  fields equal the function's value.
- `plot_utils.dfy` (`PlotUtils`): `get_rg_diff`.

Behaviour that follows the code rather than its documentation:

- `set_data` takes `(q, i, e)`. `calc_diff` calls it with the difference vector
  first and `interpolate` calls it with the interpolated vector first. In the
  resulting record the computed intensities are therefore in the `q` field and
  the grid is in the `i` field. The docstring of `calc_diff` says otherwise. The
  model follows the assignments (`DiffCurve`, `InterpolateCurve`, `DiffExample`).
- `set_data` does not check lengths, so `SetData` has no precondition.
- The errors numpy raises are modelled as `Err` results of type `Failure`:
  - `ShapeMismatch`: two numpy arrays of different lengths are combined (pandas
    Series, which `parse` builds, are listed under "Left out").
  - `UntrackedError`: `calc_diff` meets an untracked (empty) error vector, where
    `[] + []` followed by `/2` raises a `TypeError`.
  - `EmptySamples`: `np.interp` is given no sample points.
- `np.interp` finds its interval by binary search. That search stops at the
  largest `j` with `xp[j] <= x`. `Bracket` finds the same index by a linear
  scan, and `BracketUnique` shows that on a non-decreasing axis only one index
  qualifies.
- In the chi-square objective a zero error gives an IEEE division by zero. A
  non-zero residual over a zero error is `inf`, which `Extended.PosInf` models.
  A zero residual over a zero error is `0/0 = NaN`, which `nansum` skips. The
  model keeps both cases.
- `get_rg_diff` indexes a numpy array. Negative indices count from the end
  (`At`), and only an index outside `-len(rg) .. len(rg)-1` is excluded by the
  precondition.

## Model

| member | source | states |
|---|---|---|
| `Saxs.ScatterData.constructor` | saxs.py:9-12 | a `ScatterData()` without a file has `q == [0]`, `i == [0]` and an empty, untracked error |
| `Saxs.ScatterData.SetData` | saxs.py:35-50 | stores `q`, `i`, `e` exactly and in parameter order, with no length check; without an error argument the error is the empty untracked marker; the new state does not depend on the old one |
| `Saxs.SetDataTwice` | saxs.py:48-50 | after two `set_data` calls the record holds only the second call's arguments |
| `Elementwise.Sub` | methods.py:24 | `a - b` has the operands' length and entry `k` is `a[k] - b[k]` |
| `Elementwise.Add` | methods.py:25 | `a + b` has the operands' length and entry `k` is `a[k] + b[k]` |
| `Elementwise.Halve` | methods.py:25 | `a / 2` keeps the length and halves every entry |
| `Elementwise.Scale` | methods.py:48 | `buffer * factor` keeps the length and multiplies every entry by `factor` |
| `Methods.DiffCurve` | methods.py:24-27 | fails exactly on different intensity lengths, an untracked error or different error lengths, with `ShapeMismatch` or `UntrackedError` as the case is; otherwise `q[k] = light.i[k] - dark.i[k]`, `i = light.q`, `error[k] = (light.error[k] + dark.error[k]) / 2` |
| `Methods.DiffSelf` | methods.py:24-25 | a tracked curve minus itself succeeds with an all-zero difference and the curve's own error |
| `Methods.DiffSwap` | methods.py:24-27 | swapping light and dark negates every difference entry and keeps the averaged error |
| `Methods.CalcDiff` | methods.py:26-28 | returns a fresh `ScatterData` whose fields equal `DiffCurve` of the inputs' fields (or its failure); the inputs are not modified |
| `Methods.BufferSubCurve` | methods.py:48-50 | fails exactly when `data` and `buffer` differ in length; otherwise `q` is the supplied `q`, `i[k] = data[k] - factor*buffer[k]` and the error is untracked |
| `Methods.BufferSubDefaultFactor` | methods.py:30-48 | with the default factor 1 buffer subtraction is plain `data - buffer`, the same vector `calc_diff` stores |
| `Methods.BufferSubZeroFactor` | methods.py:48-50 | with factor 0 the intensity is the data unchanged |
| `Methods.BufferSub` | methods.py:48-51 | returns a fresh `ScatterData` whose fields equal `BufferSubCurve` |
| `Methods.Bracket` | methods.py:73 | on a non-decreasing axis, for `xp[lo] <= x < xp[last]` it gives the interval `j` with `xp[j] <= x < xp[j+1]` |
| `Methods.BracketUnique` | methods.py:73 | on a non-decreasing axis any interval holding `x` is the one `Bracket` finds, so numpy's binary search agrees with it |
| `Methods.InterpAt` | methods.py:73 | `np.interp` at one point is `fp[0]` left of the first sample point and `fp[last]` from the last sample point on |
| `Methods.InterpOnSegment` | methods.py:73 | for `xp[j] <= x < xp[j+1]` the value is the linear blend `fp[j] + (fp[j+1]-fp[j])/(xp[j+1]-xp[j]) * (x-xp[j])` of the bracketing nodes |
| `Methods.InterpAtNode` | methods.py:73 | on a strictly increasing axis, interpolating at sample point `xp[j]` gives `fp[j]` |
| `Methods.InterpClampLow` | methods.py:73 | on a strictly increasing axis, targets at or below `xp[0]` get `fp[0]` |
| `Methods.InterpBounded` | methods.py:73 | the interpolated value lies within any bounds that hold for all intensities, and so between their minimum and maximum |
| `Methods.InterpAll` | methods.py:73 | the interpolated vector has one value per target, entry `t` being `np.interp` at `q_target[t]` |
| `Methods.InterpolateCurve` | methods.py:72-76 | fails with `EmptySamples` exactly on an empty sample axis and with `ShapeMismatch` exactly on an axis/intensity length mismatch, and succeeds otherwise; then the interpolated values (one per target) are in `q`, `q_target` is in `i` and the error is untracked |
| `Methods.InterpolateAtOwnNodes` | methods.py:73-75 | interpolating a curve with strictly increasing `q` onto its own `q` gives back its intensities, stored in the `q` field |
| `Methods.InterpolateBounded` | methods.py:73 | every interpolated value lies within any bounds of the curve's intensities |
| `Methods.Interpolate` | methods.py:72-76 | returns a fresh `ScatterData` whose fields equal `InterpolateCurve` (or its failure) |
| `Methods.Square` | methods.py:95 | a square is non-negative and zero exactly for zero |
| `Methods.SseObjective` | methods.py:95 | `Σ (v1[k] - v2[k]*x)²` is non-negative |
| `Methods.SseZeroIffExact` | methods.py:95 | the SSE objective is zero exactly when `v1[k] == v2[k]*x` for every `k` |
| `Methods.Sse` | methods.py:95-99 | returns the optimiser's point and the SSE objective at that point (`fopt`), which is non-negative and zero exactly at an exact scale |
| `Methods.SseQuadratic` | methods.py:95 | the SSE objective equals `Σv1² - 2x·Σv1v2 + x²·Σv2²` |
| `Methods.SseMinimum` | methods.py:95-96 | when `v2` is not all zero, the least-squares scale `Σv1v2 / Σv2²` gives an SSE no larger than at any other scale: it is the minimum the search looks for |
| `Methods.ChiTerm` | methods.py:68 | one chi-square term is non-negative when finite, zero exactly for a zero residual, and infinite exactly for a non-zero residual over a zero error |
| `Methods.ChiSquareObjective` | methods.py:68 | `nansum(((v1 - v2*x) / err)²)` is non-negative whenever finite |
| `Methods.ChiSquareInfiniteIff` | methods.py:68 | the chi-square objective is infinite exactly when some point with zero error misses `v2*x` |
| `Methods.ChiSquareZeroIffExact` | methods.py:68 | the chi-square objective is zero exactly when `v1[k] == v2[k]*x` for every `k`, whatever the errors |
| `Methods.ChiSquareUnitErrors` | methods.py:68 | with all errors equal to 1 the chi-square objective equals the SSE objective |
| `Methods.DiffExample` | methods.py:24-27 | light `[10,20,30]` minus dark `[5,5,5]` on `q = [1,2,3]` with unit errors gives `q = [5,15,25]`, `i = [1,2,3]`, `error = [1,1,1]` |
| `Methods.SseExactFitExample` | methods.py:95-99 | for `[2,4,6]` against `[1,2,3]` the least-squares scale is 2, `SSE` there returns `(2, 0)`, and no scale gives a smaller objective |
| `PlotUtils.At` | plot_utils.py:23 | numpy indexing `rg[m]` reads entry `m mod len(rg)`, for negative `m` as well |
| `PlotUtils.AtNegativeAlias` | plot_utils.py:23 | index `m - len(rg)` reads the same entry as index `m` |
| `PlotUtils.GetRgDiff` | plot_utils.py:23 | the result has `min(len(indices_light), len(indices_dark))` entries, and entry `k` is `rg[indices_light[k]] - rg[indices_dark[k]]` |
| `PlotUtils.GetRgDiffSameModel` | plot_utils.py:23 | a pair with equal indices gives difference 0 |
| `PlotUtils.GetRgDiffSwap` | plot_utils.py:23 | swapping the two index lists negates every entry |
| `PlotUtils.GetRgDiffTruncates` | plot_utils.py:23 | only the first `min` pairs of the two lists matter, as with `zip` |

## Left out

- `ScatterData.parse` (saxs.py:17-33) and the constructor's file branch are not modelled: they read a CSV file with pandas.
- The `optimize.fmin` Nelder–Mead searches in `chi_square` (methods.py:69) and `SSE` (methods.py:96) are not modelled. They are iterative floating-point searches inside SciPy. `Sse` takes the point the search returns as an input. `chi_square`'s return value (the point and the search trace) is not modelled; only its objective is.
- `calc_r2` (methods.py:101-103) is not modelled: it is a call into scikit-learn's `r2_score`.
- `plotter` and the `plot_*` functions in plot_utils.py are not modelled: they only draw with matplotlib.
- `plotter` calls `scale_q` and `cut_q` (plot_utils.py:56-57), which saxs.py does not define; there is no range-cut, scaling or NaN-removal code to model.
- Aliasing is not modelled: `set_data` stores references (saxs.py:48-50), so the `i` field of `calc_diff`'s result is the very array `light.q` (methods.py:27), `interpolate`'s `i` is the caller's `q_target` (methods.py:75) and `buffer_sub`'s `q` is the caller's `q` (methods.py:50). The model copies values, so a later in-place change to one of those arrays is not seen through the other.
- Methods.DiffCurve: an empty error vector always counts as untracked. A `seq<real>` cannot tell the Python list `[]` from a tracked empty numpy array; with errors equal to `np.array([])` the source's `calc_diff` succeeds (empty arrays add and halve, methods.py:25), while `DiffCurve` returns `Err(UntrackedError)`.
- Methods.DiffCurve and Methods.BufferSubCurve: every field is treated as a numpy array, as `set_data`'s docstring asks (saxs.py:42-44). Curves read by `parse` hold pandas Series instead (saxs.py:30-33). On Series, `light.i - dark.i`, `light.error + dark.error` (methods.py:24-25) and `data - (buffer*factor)` (methods.py:48) line up entries by index label and pad unequal lengths with NaN instead of raising. So the `ShapeMismatch` failures of these two members model numpy arrays only.
- Rounding and overflow of floats are not modelled, and neither are NaN values in the input vectors. NaN appears only where a chi-square term divides zero by a zero error; infinity appears only where it divides a non-zero residual by a zero error.
- numpy broadcasting of length-1 vectors is not modelled. Neither is `[] + array` when only one curve's error is untracked. Vectors of different lengths are a `ShapeMismatch`, and any untracked error in `calc_diff` is an `UntrackedError`.
- Methods.SseObjective: requires equal lengths instead of modelling numpy's `ValueError` for mismatched vectors, because the objective runs only inside the optimiser.
- Methods.ChiSquareObjective: requires equal lengths, for the same reason as `SseObjective`.
- Methods.InterpolateCurve: requires a non-decreasing sample axis `data.q`, because `np.interp` does not check it and its result on an unsorted axis is unspecified. NaN targets are not modelled.
- PlotUtils.GetRgDiff: requires every index pair that `zip` reaches to lie within the bounds of `rg`, instead of modelling the `IndexError`.
- Default arguments (`factor=1` in `buffer_sub`, `e=None` in `set_data`) are explicit parameters. `BufferSubDefaultFactor` covers the default factor, and `Option.None` stands for the absent error.
