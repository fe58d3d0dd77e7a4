# Medical examination visualiser — a Dafny model of its table transformations

The script loads a table of medical examinations (one row per subject: id,
age, gender, height, weight, systolic and diastolic pressure, cholesterol and
glucose levels, smoking, alcohol and activity flags, and the cardiovascular
disease label `cardio`). It derives features on the shared table, then draws
two figures: a categorical bar chart of indicator counts split by `cardio`,
and a correlation heat map of a cleaned subset. This project models the
deterministic table transformations under those figures and proves what they
guarantee:

- **Feature derivation** (`Features`, file `features.dfy`). The shared table is an
  `array<Record>` updated in place, one column statement at a time. First the
  `overweight` flag is set: 1 exactly when weight / (height/100)^2 > 25. Then
  `cholesterol` and then `gluc` are rewritten: level 1 becomes 0 and any other
  value becomes 1. Each statement is a loop method. Its postcondition gives the
  new array as a function of the old one. `DeriveFeatures` runs them in source
  order. Rows, row order and every other field stay unchanged.
- **Melt and group-count** (`CatPlot`, file `cat_plot.dfy`). The long-format
  reshape yields six `(cardio, variable, value)` triples per row, column by
  column. The grouped count table is built by counting each triple into a table
  kept in key order. Keys are sorted by cardio, then by variable name, then by
  value. Variable names compare lexicographically by code point, as in
  `SortOrder` (file `sort_order.dfy`). The lemmas prove that the table is the
  unique ascending table of positive totals matching the triples' multiplicities.
  They also prove that its totals sum to 6·n overall, and to 6 times the number
  of rows with label c for each label c.
- **Filter and mask** (`HeatMap`, file `heat_map.dfy`). The plausibility/percentile
  filter keeps an order-preserving subsequence: exactly the rows with
  `ap_lo <= ap_hi` and height and weight inside inclusive bands. The bands are
  computed once from the full table. The filter is monotone in the bands and
  idempotent. The upper-triangle mask is n×n, true exactly on and above the
  diagonal, and has n(n+1)/2 true cells. For each pair of mirrored
  off-diagonal cells it hides exactly one.

`Records` (file `records.dfy`) holds the row datatype and the column lists.

Two details of the code that the model keeps:
- the normalisation maps every value other than 1 to 1, though the comment
  at line 16 speaks only of values above 1;
- the four bands are computed once from the full height and weight columns.

## Model

| member | source | states |
|---|---|---|
| `Features.Overweight` | medical_data_visualizer.py:12 | the overweight flag is always 0 or 1 |
| `Features.OverweightIffCrossMultiplied` | medical_data_visualizer.py:12 | the flag is 1 exactly when weight·10000 > 25·height², so a BMI of exactly 25 gives 0; this holds for every height, including 0, where the floating-point division gives ±inf or NaN |
| `Features.OverweightExamples` | medical_data_visualizer.py:12 | three sample rows: 170 cm / 70 kg gives 0, 160 cm / 70 kg gives 1, and BMI exactly 25 (200 cm / 100 kg) gives 0 |
| `Features.NormalizeLevel` | medical_data_visualizer.py:17-18 | the normalised cholesterol/glucose value is 0 or 1, and it is 0 exactly when the input is 1 |
| `Features.NormalizeLevelNotIdempotent` | medical_data_visualizer.py:17-18 | levels 1, 2, 3 map to 0, 1, 1; normalising twice differs from normalising once (0 maps to 1) |
| `Features.DeriveRow` | medical_data_visualizer.py:12-18 | a derived row has overweight, cholesterol and gluc computed from the raw row, each in {0,1}, and every other field unchanged |
| `Features.DeriveTable` | medical_data_visualizer.py:12-18 | derivation keeps the row count and order, and row i of the result is derived from row i of the input |
| `Features.DeriveTwiceDiffers` | medical_data_visualizer.py:12-18 | if any row has cholesterol level 1, deriving twice gives a different table from deriving once |
| `Features.AddOverweightColumn` | medical_data_visualizer.py:12 | every array element gets its overweight flag from its own height and weight; nothing else changes |
| `Features.NormalizeLevelColumn` | medical_data_visualizer.py:17-18 | every array element gets the named level column normalised; nothing else changes |
| `Features.DeriveFeatures` | medical_data_visualizer.py:12-18 | after the three column statements, the array holds the derived table of its old contents, row by row |
| `CatPlot.MeltLength` | medical_data_visualizer.py:24-26 | n rows give exactly 6·n triples, for every table including the empty one |
| `CatPlot.MeltShape` | medical_data_visualizer.py:24-26 | triple v·n+i carries row i's cardio, the v-th indicator name and row i's value for that column (so the triples run column by column, rows in order) |
| `CatPlot.MeltColumnsFrom` | medical_data_visualizer.py:24-26 | every triple names one of the melted columns and carries some row's cardio and that row's value for the column |
| `CatPlot.MeltCardioCount` | medical_data_visualizer.py:24-26 | the triples with cardio c number 6 times the rows with cardio c |
| `SortOrder.IndicatorNameOrder` | medical_data_visualizer.py:30 | the grouped table orders the variables active, alco, cholesterol, gluc, overweight, smoke |
| `CatPlot.GroupCountCorrect` | medical_data_visualizer.py:30 | the count table's keys are strictly ascending (so distinct) and equal the set of triples; every total is at least 1 and equals that key's number of occurrences; the totals sum to the number of triples, and per cardio c to the number of triples with cardio c |
| `CatPlot.TableDeterminedByTotals` | medical_data_visualizer.py:30 | two ascending tables of positive totals that agree on every key's total are equal |
| `CatPlot.GroupCountUnique` | medical_data_visualizer.py:30 | any ascending table of positive totals whose totals are the triples' multiplicities is the count table |
| `CatPlot.CatSummaryTotals` | medical_data_visualizer.py:24-30 | the plotted table is ascending with positive totals; its totals sum to 6·n, and for each cardio c to 6 times the rows with cardio c |
| `CatPlot.DerivedIndicatorsBinary` | medical_data_visualizer.py:12-30 | after derivation, every cholesterol, gluc and overweight group of the plotted table has value 0 or 1 |
| `HeatMap.Filter` | medical_data_visualizer.py:45-49 | the filtered table is no longer than the input, and every kept row has ap_lo <= ap_hi and height and weight within the bands |
| `HeatMap.KeptIndices` | medical_data_visualizer.py:45-49 | the kept positions are strictly increasing and in range; a position is kept exactly when its row meets all the conditions, so every dropped row violates at least one |
| `HeatMap.FilterSelectsKept` | medical_data_visualizer.py:45-49 | the filtered table is the subsequence of the input at exactly the kept positions, in order |
| `HeatMap.FilterTighter` | medical_data_visualizer.py:45-49 | with a raised lower bound or a lowered upper bound, the result equals filtering the looser result again, and it has no more rows |
| `HeatMap.FilterIdempotent` | medical_data_visualizer.py:45-49 | filtering the filtered table again changes nothing |
| `HeatMap.HeatSubset` | medical_data_visualizer.py:45-49 | every row of the heat-map subset has ap_lo <= ap_hi, and height and weight between the 2.5th and 97.5th percentiles of the full, unfiltered table |
| `HeatMap.TriuMaskCells` | medical_data_visualizer.py:57 | mask[i][j] holds exactly when j >= i; the diagonal is true; for i ≠ j exactly one of mask[i][j] and mask[j][i] is true |
| `HeatMap.TriuMaskCount` | medical_data_visualizer.py:57 | exactly n(n+1)/2 cells of the n×n mask are true |
| `HeatMap.HeatMaskShape` | medical_data_visualizer.py:53-57 | the mask is square over the table's 14 columns and has 105 true cells |

## Left out

- Loading the CSV file (line 7): file I/O and the table library's parsing and type inference. The model starts from a sequence or array of complete records.
- Drawing and saving the figures (lines 34, 37, 60-67): the plotting libraries and the image files are external side effects.
- The correlation matrix (line 53): floating-point numerics (an empty subset gives NaN). Only its shape, 14×14 over the table's columns, is used, for the mask.
- The quantile computation (lines 46-49): the library's linear interpolation over floats. `HeatSubset` takes the quantile as a function parameter. It applies that function to the full height and weight columns.
- Floating-point rounding: BMI is computed exactly with `real`, and weight is a `real`. Near the threshold of 25, float rounding may differ from the exact comparison.
- Missing values: `count()` skips nulls, but every row is assumed complete, so each group's total counts all its triples.
- Columns that do not exist yet: before derivation, the `overweight` field of `Record` holds an arbitrary value, and derivation overwrites it. The source instead adds the column.
- Fixed-width integers: the table's integer columns are unbounded `int`. Sums of counts of realistic size cannot overflow 64 bits.
