# sdf_gen: the Euclidean distance transform, modelled in Dafny

`sdf_gen.py` turns a black-and-white bitmap into a signed distance field. Its
core is a brute-force, separable squared Euclidean distance transform:

- `evaluate_parabolla` gives the parabola rooted at a column with a base height;
- `compute_rows` replaces every cell of every row by the lower envelope of the
  parabolas of its row (a fresh `np.ones_like` buffer whose every cell is
  overwritten);
- `compute_euclidian_distance` runs the row pass, transposes, runs it again on
  the former columns and transposes back;
- `edt_encode` turns a 0/1 mask into seed heights: 1 becomes 0, 0 becomes
  +infinity. It is applied to the thresholded mask (`grey < 128` is
  foreground) and to its complement `1 - img`.

The model works over exact integers. A height or squared distance is an
`Ext`, either `Fin(n)` with `n` a natural or `Inf`. Adding a finite offset to
`Inf` stays `Inf`, as the float sum does. Grids are values
(`Grids.Grid<T>`, with an explicit shape as numpy keeps one). The two
imperative operations are methods over `array2`. `compute_rows` writes into
a fresh array. `edt_encode` copies and then does the two masked assignments in
place. Each method is proved equal to a pure function, and the properties are
proved about those functions.

The headline result is `DistanceTransform.Separability`. At every cell
(y, x), the two-pass transform equals the minimum over all cells (sy, sx) of
`img[sy, sx] + (sy - y)^2 + (sx - x)^2`: no cell offers less, and some cell
offers exactly that value. For a 0/infinity seed encoding this is the squared
distance to the nearest seed (`UnsignedFields.NearestSeed`). The value is 0
exactly on the seeds and +infinity exactly when there is no seed.

Sign convention of the signed field `sqrt(edt_positive) - sqrt(edt_negative)`:
each cell is a seed of exactly one of the two encodings
(`UnsignedFields.FieldsComplementary`). The field is therefore negative on
foreground (dark) pixels and positive on background pixels. The square roots
themselves are not modelled.

Files: `ext.dfy` (module `ExtNat`), `grid.dfy` (`Grids`), `rows.dfy`
(`RowTransform`), `edt.dfy` (`DistanceTransform`), `encode.dfy` (`Encoding`),
`fields.dfy` (`UnsignedFields`).

## Model

| member | source | states |
|---|---|---|
| `ExtNat.Add` | sdf_gen.py:24 | adding a squared offset never lowers a height; the sum is infinite exactly when the height is; it equals the height only for offset 0 or an infinite height |
| `ExtNat.Min` | sdf_gen.py:35 | Python's two-argument `min`: the result is at most both arguments and is one of them |
| `RowTransform.Parabola` | sdf_gen.py:23-24 | the parabola's value is at least its base height, finite exactly when the height is, equal to height + (px-x)^2 when finite, and equal to the base only at its root column (or when the base is infinite) |
| `RowTransform.Envelope` | sdf_gen.py:32-35 | the running `sdf_min` after k parabolas is at most the cell's own height and every parabola seen so far, and equals the own height or one of those parabolas |
| `RowTransform.RowMin` | sdf_gen.py:32-36 | the value written at column x is the minimum of the row's parabolas at x: a lower bound of all of them, attained by one |
| `RowTransform.RowPass` | sdf_gen.py:27-37 | the row pass keeps the grid's shape and gives every cell the lower envelope of its own row |
| `RowTransform.ComputeRows` | sdf_gen.py:27-37 | the method's fresh result array holds exactly `RowPass` of the input: same shape, and no cell of the `np.ones_like` initialisation survives |
| `RowTransform.RowMinNeverIncreases` | sdf_gen.py:32-35 | the row pass never raises a cell, so a seed (height 0) stays 0 |
| `RowTransform.RowMinFinite` | sdf_gen.py:33-36 | a cell is finite after the row pass exactly when its row holds some finite height; an all-infinite row stays infinite |
| `RowTransform.RowsIndependent` | sdf_gen.py:30-36 | an output row depends only on the same input row |
| `Grids.Transpose` | sdf_gen.py:42-44 | the transpose swaps the shape and maps cell (x, y) to cell (y, x) |
| `Grids.TransposeTwice` | sdf_gen.py:42-44 | transposing twice gives back the grid |
| `DistanceTransform.EuclideanDistance` | sdf_gen.py:40-45 | the two-pass transform keeps the grid's shape |
| `DistanceTransform.Separability` | sdf_gen.py:40-45 | the result at (y, x) is the brute-force minimum over all cells of height + (sy-y)^2 + (sx-x)^2: a lower bound of every cell's offer, attained by one |
| `DistanceTransform.ZeroExactlyAtSeeds` | sdf_gen.py:41-44 | the result is 0 at a cell if and only if that cell has height 0 |
| `DistanceTransform.InfiniteExactlyWithoutSeeds` | sdf_gen.py:41-44 | the result is +infinity at a cell if and only if every height of the grid is infinite |
| `Encoding.Threshold` | sdf_gen.py:52 | a grey value is foreground (1) exactly when it is below 128 |
| `Encoding.Binarize` | sdf_gen.py:51-52 | the thresholded mask keeps the image's shape and is 1 exactly at pixels darker than 128 |
| `Encoding.Invert` | sdf_gen.py:64 | `1 - img` keeps the shape and flips every bit |
| `Encoding.InvertTwice` | sdf_gen.py:64 | complementing twice gives back the mask |
| `Encoding.Lift` | sdf_gen.py:58 | the float copy of a mask has the same shape, with 0 and 1 as finite heights |
| `Encoding.Replace` | sdf_gen.py:59-60 | a masked assignment keeps the shape, rewrites exactly the cells equal to `from` and leaves every other cell |
| `Encoding.SeedEncoding` | sdf_gen.py:57-61 | the encoding keeps the shape, is 0 exactly where the mask is 1 and +infinity exactly where it is 0 |
| `Encoding.MaskedAssignmentsInOrder` | sdf_gen.py:59-60 | the two masked assignments must run in the source's order: swapped, every cell would end up +infinity |
| `Encoding.InvertedSeeds` | sdf_gen.py:63-64 | encoding `1 - img` seeds exactly the cells that encoding `img` does not |
| `Encoding.ReplaceWhere` | sdf_gen.py:59-60 | the in-place masked assignment leaves the array holding `Replace` of its old value |
| `Encoding.EdtEncode` | sdf_gen.py:57-61 | the method returns a fresh array holding `SeedEncoding` of the mask; the caller's array is not modified |
| `UnsignedFields.PositiveField` | sdf_gen.py:63-66 | `edt_positive` has the mask's shape |
| `UnsignedFields.NegativeField` | sdf_gen.py:64-67 | `edt_negative` has the mask's shape |
| `UnsignedFields.NearestSeed` | sdf_gen.py:63-66 | the transform of an encoded mask is the squared distance to the nearest foreground cell: at most the distance to every seed, equal to the distance to some seed, and +infinity exactly when the mask has no seed |
| `UnsignedFields.NearestBackground` | sdf_gen.py:64-67 | the transform of the encoded complement is the squared distance to the nearest background cell: at most the distance to every background cell, equal to the distance to some, and +infinity exactly when the mask has no background cell |
| `UnsignedFields.SingleSeed` | sdf_gen.py:63-66 | with a single seed, every cell holds its squared Euclidean distance to that seed |
| `UnsignedFields.FieldsComplementary` | sdf_gen.py:63-67 | `edt_positive` is 0 exactly on foreground cells and `edt_negative` exactly on background cells, so exactly one of them is 0 at each cell |
| `UnsignedFields.CentreForeground` | sdf_gen.py:63-66 | a 3x3 mask with only the centre set: distances 0 at the centre, 1 at the edge neighbours, 2 at the corners |
| `UnsignedFields.CentreBackground` | sdf_gen.py:64-67 | the same mask, background side: 1 at the centre, 0 at every other cell |

## Left out

- The signed combination and normalisation (sdf_gen.py:70-75: `np.sqrt`, the subtraction, division by `biggest_dim`, the `uint8` cast) are floating-point numerics and are not modelled. Only their sign is described above, through `FieldsComplementary`. On an all-foreground or all-background image one field is +infinity everywhere, and the code then divides by infinity or produces NaN. There is no integer contract for that, and the model does not add the rejection a reimplementation might make.
- Empty images are not rejected: as in the code, a grid with no rows or no columns passes through every operation unchanged in shape. The program as a whole still fails on an empty image later, at sdf_gen.py:72, where `np.amax` of a zero-size array raises; that step is outside the model.
- Floating-point rounding: the image is float32 only at sdf_gen.py:51. `np.where` at line 52 returns float64, so the mask, its copy in `edt_encode`, `1 - img`, the `np.ones_like` buffer and every squared distance are float64. float64 represents every integer up to 2^53 exactly. The largest squared distance the code computes is (rows-1)^2 + (cols-1)^2, so modelling squared distances as exact naturals loses nothing while that stays at most 2^53, for example when both sides are at most 2^26 + 1 (about 67 million) cells. A longer strip can make the float64 sum at sdf_gen.py:24 round, and the model does not capture that rounding. `np.inf` is the `Inf` constructor.
- The masks are modelled as grids of bits. `np.where` only produces 0.0 and 1.0, and `1 - img` keeps that, so the cells that `edt_encode` would leave untouched (values other than 0 and 1) never arise.
- Image loading, greyscale conversion, `sys.argv` and saving the PNG (sdf_gen.py:48-49, 78-81) are I/O through PIL and `os`. The greyscale image enters the model as a grid of values 0..255 (`Encoding.Grey`).
- The matplotlib figure, `plot` and the final display (sdf_gen.py:8-19, 84-91) are user interface and global state.
- `@njit` is a compilation hint with no effect on results.
- Mirror symmetry of the transform is not stated as a lemma. It adds nothing beyond `DistanceTransform.Separability`, because the brute-force minimum is itself symmetric under mirroring.
- Growth of the distance away from the seeds is not stated. In the Chebyshev form sometimes given for it, it does not hold. Take a 5x5 mask with one seed at (0,0). Cell (3,3) is 3 steps away in the Chebyshev sense and holds 18 (`UnsignedFields.SingleSeed`). Cell (4,0) is 4 steps away and holds only 16.
