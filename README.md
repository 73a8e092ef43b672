# A verified model of `clean_airbnb_data`

`clean_airbnb_data` (script.py) cleans a table of Airbnb listings for price
prediction in eight fixed steps:

1. It drops every column with fewer than 75% present cells.
2. It turns `price` and `extra_people` from currency strings into floats.
3. It expands the `amenities` listing into one count column `amen_<token>` per token.
4. It parses three date columns.
5. It drops every row whose price is not at most 2000.
6. It fills missing numbers with the column median.
7. It fills missing text with `"Unknown"`.
8. It maps `host_is_superhost` to 0/1.

This project models those steps in Dafny and proves what each promises.

The table (module `Frame`) is a sequence of named columns of equal length.
- A cell is missing, a string, an exact real number, or a timestamp.
- Each column carries its pandas dtype (numeric, object, datetime) as data.
- `WellFormed` says that every column is as long as the index, that its cells fit its dtype, and that labels are unique.

The model keeps the source's form:
- Steps that rebind `df` to a new frame are functions on tables with lemmas: the selection of step 1, the `explode`/`get_dummies`/`groupby`/`concat` of step 3, and the boolean mask of step 5. They live in `Steps.Prune`, `Amenities.ExpandAmenities` and `Steps.FilterOutliers`.
- Steps that overwrite columns of `df` in place become methods of the class `Cleaner.DataFrame`. These are the loops over column labels of steps 2, 4, 6 and 7, the assignment of step 8 and the in-place `drop` of step 3. Each method is proved equal to the table function that specifies it.
- `Cleaner.CleanAirbnbData` runs the steps in the source's order. It is proved to agree with the function `Pipeline.Clean`, and the end-to-end properties are proved about that function.

Python and pandas behaviour the cleaner relies on but does not define is a parameter `Env`:
- how `astype(str)` renders a number or a timestamp;
- how `float(...)` reads a string (error, NaN, or a number);
- how `pd.to_datetime(..., errors='coerce')` reads a cell.

## Where the code does other than its comments say

The model follows the code in each of these cases.

- **Step 5 can raise instead of removing outliers.**
  - The comment at script.py:55 reads "Remove outliers (e.g., price > 2000)".
  - Suppose one `price` cell still fails to parse after `$` and `,` are removed, for example `"N/A"`. Then `astype(float, errors='ignore')` leaves the whole column as strings, and `df['price'] <= 2000` raises a TypeError.
  - So the cleaner is not total. `Pipeline.Clean` returns `Failure(PriceNotComparable)`, and `Pipeline.CleanFailsExactly` characterises exactly when that happens.
  - Rows with a missing price are removed as well, because NaN `<= 2000` is false.
- **The amenity columns hold counts, not 0/1.**
  - The comment at script.py:25 reads "Convert ALL amenities into binary columns".
  - `groupby(level=0).sum()` adds the dummies up, so a token listed twice in one row gives 2. The contract of `Amenities.Indicators` states the count.
- **A missing `host_is_superhost` in an object column ends up missing, not 0.**
  - The comment at script.py:69 reads "Convert 'host_is_superhost' to 0/1", and the mapping sends NaN to 0.
  - But step 7 runs before step 8, so a missing superhost cell has already become `"Unknown"`. That is not a key of the mapping, so step 8 turns it into NaN. See `Steps.UnknownSuperhostIsMissing`.
- **A table without rows loses every column in step 1.**
  - The comment at script.py:10 reads "Remove columns with > 25% missing values".
  - On an empty frame `notna().mean()` is NaN for every column, and NaN `>= 0.75` is false.

## What the cleaned frame can still hold

Steps 6 to 8 do not fill every gap.

- **Date columns keep their missing cells.** Steps 6 and 7 (script.py:59-67) fill only numeric and object columns, so a missing date (`NaT`) stays.
- **A numeric column with no value left stays all missing.** If no row that survives step 5 has a value in a numeric column, its `median()` is NaN, and `fillna(NaN)` at script.py:62 changes nothing.
- **`host_is_superhost` can hold missing cells.** This is the step-8 case in the section above.
- `Pipeline.CleanSettled` proves exactly this much. Every object column of the cleaned frame is complete. Every numeric column other than `host_is_superhost` is either complete or holds no value at all.

## Model

| member | source | states |
|---|---|---|
| Strings.Without | script.py:21-22 | no deleted character is left, and the result is no longer than the input |
| Strings.WithoutConcat | script.py:21-22 | deleting characters distributes over concatenation, so the kept characters stay in their order |
| Strings.WithoutIdentity | script.py:21-22 | a string with none of the deleted characters is unchanged |
| Strings.WithoutIdempotent | script.py:21-22 | deleting the same characters twice is deleting them once |
| Strings.WithoutTwice | script.py:21-22 | two successive deletions are one deletion of both sets |
| Strings.Lower | script.py:31 | `str.lower()` keeps the length, lower-cases each ASCII letter in place, and leaves no upper-case letter |
| Strings.LowerIdempotent | script.py:31 | lower-casing twice is lower-casing once |
| Strings.LowerWithoutCommute | script.py:29-31 | deleting punctuation and lower-casing commute |
| Strings.LowerConcat | script.py:31 | lower-casing distributes over concatenation |
| Strings.Split | script.py:35 | `x.split(',')` gives one more piece than there are commas, and no piece holds a comma |
| Strings.JoinSplit | script.py:35 | joining the pieces back with commas gives the original string |
| Strings.SplitJoin | script.py:35 | splitting comma-free pieces joined by commas gives the pieces back |
| Strings.Strip | script.py:35 | `amen.strip()` is an infix of the input with only whitespace around it removed, and it neither starts nor ends with whitespace |
| Strings.StripIdentity | script.py:35 | a string without whitespace at either end is its own strip |
| Strings.StripIdempotent | script.py:35 | stripping twice is stripping once |
| Strings.IsSpace | script.py:35 | the characters Python's `str.isspace` accepts, which `strip()` removes |
| Frame.Lookup | script.py:19-20 | `col in df.columns` is answered exactly, together with the position of the column |
| Frame.LookupUnique | script.py:19-20 | with unique labels the position found is the only column with that label |
| Frame.NonMissing | script.py:12 | the count of present cells, zero exactly when every cell is missing |
| Frame.AsText | script.py:20 | `astype(str)` on one cell: a string stays, NaN becomes `"nan"`, and a number or timestamp is rendered by the environment |
| Currency.StripCurrency | script.py:21-22 | the cleaned string has no `$` and no `,`, and it is the input with exactly those characters deleted |
| Currency.StripCurrencyConcat | script.py:21-22 | the other characters are kept in order |
| Currency.StripCurrencyKeeps | script.py:21-22 | a string without `$` or `,` is unchanged |
| Currency.StripCurrencyIdempotent | script.py:21-22 | cleaning twice equals cleaning once |
| Currency.StripFormattedPrice | script.py:21-22 | a `$` in front and a thousands separator are all that is removed from a formatted price |
| Currency.AllParse | script.py:23 | every stripped cell reads as a float (a number or NaN), the condition under which `astype(float, errors='ignore')` converts the column |
| Currency.FloatCell | script.py:23 | a parsed number becomes that number and a parsed NaN a missing cell |
| Currency.CleanCurrencyColumn | script.py:20-23 | the label and the row count are kept, and the cells fit the resulting dtype |
| Currency.CleanCurrencyColumnCases | script.py:20-23 | the column becomes numeric exactly when every stripped cell parses, each cell then being its parse; otherwise every cell is the stripped string |
| Currency.CleanCurrencyIdempotent | script.py:18-23 | running step 2 on its own output changes nothing, provided "nan" reads as NaN and each number the column reads as is rendered without `$` or `,` and reads back as itself |
| Amenities.CleanAmenities | script.py:28-31 | the cleaned string has none of `{`, `}`, `"`, `'` and no upper-case letter |
| Amenities.CleanAmenitiesEitherOrder | script.py:28-31 | the cleaned string is the original with only those four characters removed, then lower-cased, in either order |
| Amenities.CleanAmenitiesIdempotent | script.py:28-31 | cleaning twice equals cleaning once |
| Amenities.Tokens | script.py:34-36 | a cell has exactly commas + 1 tokens, so never none, and no token holds a comma or has whitespace at either end |
| Amenities.TokensOfList | script.py:34-36 | a listing written as comma-and-space separated tokens reads back as exactly those tokens |
| Amenities.TokensOfEmpty | script.py:34-36 | an empty cleaned cell yields one empty token |
| Amenities.Vocabulary | script.py:39-40 | the categories of `get_dummies` are strictly sorted and are exactly the tokens occurring in some row |
| Amenities.LexLess | script.py:40 | the code-point order on strings in which `get_dummies` sorts its categories |
| Amenities.Count | script.py:41 | the per-row sum of a dummy column is positive exactly when the token is in the row |
| Amenities.IndicatorColumn | script.py:40-41 | the summed dummy column of one token: labelled `amen_<t>`, numeric, and holding that row's count of the token |
| Amenities.Indicators | script.py:39-41 | one count column per category, in category order: the k-th is labelled `amen_` followed by the k-th sorted token, is numeric, and holds in each row how often that token occurs there |
| Amenities.IndicatorsSpec | script.py:39-41 | the count columns are numeric and aligned with the rows, and their labels are distinct; `amen_<t>` exists exactly when `t` occurs in some row; a row's value is ≥ 1 exactly when `t` is in the row and 0 exactly when it is not |
| Amenities.IndicatorsRoundTrip | script.py:39-41 | the tokens whose count column is non-zero in a row are exactly that row's tokens |
| Amenities.RowTokens | script.py:28-36 | column `amenities_list` has one non-empty token list per row |
| Amenities.DropNamed | script.py:47 | `drop(columns=...)` keeps exactly the columns whose label is not listed |
| Amenities.DropNamedConcat | script.py:44-47 | dropping distributes over the concatenation of frames |
| Amenities.DropNamedNone | script.py:47 | dropping labels that are not present changes nothing |
| Amenities.ExpandAmenities | script.py:26-47 | step 3 keeps the rows and the frame well formed |
| Amenities.ExpandAmenitiesSpec | script.py:26-47 | with an `amenities` column, none of the three amenities labels is left; the other columns are kept in order, followed by exactly the count columns of the row tokens |
| Amenities.ExpandAmenitiesAbsent | script.py:26 | without an `amenities` column step 3 changes nothing, whatever labels the frame has |
| Amenities.ExpandAmenitiesKeeps | script.py:44-47 | every column with another label survives step 3 unchanged |
| Amenities.ExpandAmenitiesLabels | script.py:39-47 | step 3 introduces only `amen_` labels |
| Amenities.IndicatorsNotDropped | script.py:44-47 | the drop never removes a count column |
| Stats.Sort | script.py:62 | a sorted permutation of the values |
| Stats.Median | script.py:62 | `Series.median()` of the present values: the middle of their sorted order |
| Stats.Middle | script.py:62 | the middle value of a sorted sequence, or the mean of its two middle values, lying between its smallest and largest value |
| Stats.SortedUnique | script.py:62 | two sorted sequences with the same elements are equal |
| Stats.MedianOfPermutation | script.py:62 | the median depends on the values only, not on their order |
| Stats.MedianSplitsInHalves | script.py:62 | at least half of the values are at most the median, and at least half are at least the median |
| Stats.MedianInRange | script.py:62 | the median lies between the smallest and the largest value |
| Stats.CountPermutation | script.py:62 | counting values on either side of a bound does not depend on order |
| Steps.DenseIsThreeQuarters | script.py:12-14 | the integer test `4 · present ≥ 3 · rows` is `notna().mean() >= 0.75` |
| Steps.Dense | script.py:12-14 | a column is kept when it has rows and at least three quarters of its cells are present |
| Steps.KeepDense | script.py:14-15 | a column is selected exactly when it is dense, and with no rows none is |
| Steps.KeepDenseConcat | script.py:14-15 | the selection keeps the columns' relative order |
| Steps.Prune | script.py:12-15 | step 1 keeps the row count and the frame well formed; survivors are exactly the dense columns, with their contents; an empty frame loses every column |
| Steps.PruneDense | script.py:12-15 | every surviving column has at least 75% present cells |
| Steps.Observed | script.py:62 | the values `median()` skips NaN to reach: a value is observed exactly when some cell holds it, none exactly when no cell is a number, and in a column of numbers and gaps there are as many as there are present cells |
| Steps.ObservedConcat | script.py:62 | the observations of two stretches of rows are those of the first followed by those of the second, so they keep the row order and each cell adds only its own value |
| Steps.FillMedianSpec | script.py:60-62 | present cells are unchanged; each missing cell becomes the median of the values present before the fill, which has at least half of them on either side; a column without values is unchanged |
| Steps.FillMedian | script.py:60-62 | `fillna(median())` on one column keeps its label, dtype and length |
| Steps.FillMedianFills | script.py:60-62 | a numeric column with a value has no missing cell after the fill |
| Steps.FillMedianSettles | script.py:60-62 | after the fill a numeric column is complete or holds no value at all |
| Steps.FillUnknown | script.py:65-67 | no missing cell is left; missing cells become `"Unknown"` and the others are unchanged |
| Steps.FillKeepsComplete | script.py:60-67 | neither fill changes a column without missing cells |
| Steps.SuperhostFlag | script.py:71 | `"t"` maps to 1 and only `"t"` does; `"f"` and a missing cell map to 0; every other value maps to a missing cell |
| Steps.MapSuperhost | script.py:70-71 | the mapped column is numeric, aligned, and holds only numbers and NaN |
| Steps.UnknownSuperhostIsMissing | script.py:65-71 | the mapping sends a missing cell to 0, yet a missing cell of an object superhost column ends up missing after steps 7 and 8 |
| Steps.DateCell | script.py:53 | a date cell becomes a timestamp or NaT, and NaN stays NaT |
| Steps.ParseDateColumn | script.py:50-53 | a parsed column is a datetime column of the same length |
| Steps.ApplyOp | script.py:18-71 | every per-column conversion keeps the label and the length, and a well-typed column stays well typed |
| Steps.MapNamed | script.py:18-20 | converting the listed columns keeps the number of columns and their labels |
| Steps.MapNamedWellFormed | script.py:18-20 | converting listed columns keeps the frame well formed |
| Steps.MapNamedStep | script.py:18-20 | converting for one more label extends the conversion for the list, which is what the loop over labels does |
| Steps.MapNamedKeeps | script.py:18-20 | an unlisted column is carried over unchanged and a listed one converted |
| Steps.NamesOfKind | script.py:60-65 | `select_dtypes(...).columns` lists exactly the labels of the columns of that dtype |
| Steps.NamesOfKindDistinct | script.py:60-65 | that list has no duplicates |
| Steps.NamesOfKindExact | script.py:60-65 | with unique labels a column is listed exactly when it has the dtype |
| Steps.MapNamedOfKind | script.py:60-67 | converting the columns whose labels were selected by dtype is converting exactly the columns of that dtype |
| Steps.NormalizeCurrency | script.py:18-23 | step 2 keeps the rows and the frame well formed |
| Steps.ParseDates | script.py:50-53 | step 4 keeps the rows and the frame well formed |
| Steps.ImputeNumeric | script.py:60-62 | step 6 keeps the rows and the frame well formed |
| Steps.ImputeText | script.py:65-67 | step 7 keeps the rows and the frame well formed |
| Steps.EncodeSuperhost | script.py:70-71 | step 8 keeps the rows and the frame well formed |
| Steps.KeptRows | script.py:57 | the mask's positions are strictly increasing and are exactly the rows whose price compares true |
| Steps.AtMostCap | script.py:57 | `price <= 2000` on one cell holds exactly for a number within the cap, and raises exactly for a string or a timestamp; NaN and larger numbers compare false |
| Steps.IndicesBound | script.py:57 | a strictly increasing selection of rows has at most as many entries as there are rows |
| Steps.FilterOutliers | script.py:56-57 | step 5, when it does not raise, yields a well-formed frame with no more rows |
| Steps.FilterOutliersSpec | script.py:56-57 | step 5 raises exactly when a price cell is a string or a timestamp; otherwise it keeps exactly the rows whose price is a number ≤ 2000, in their original order and in every column, each column keeping its label and dtype, and afterwards every price is a number ≤ 2000 |
| Steps.FilterOutliersAbsent | script.py:56 | without a `price` column step 5 changes nothing |
| Pipeline.BeforeFilter | script.py:10-53 | steps 1-4 keep the row count and the frame well formed |
| Pipeline.AfterFilter | script.py:59-71 | steps 6-8 keep the row count and the frame well formed |
| Pipeline.Clean | script.py:8-76 | a cleaned frame is well formed and has no more rows than the input |
| Pipeline.PriceReachesFilter | script.py:18-57 | a price column that survives step 1 reaches step 5 converted by step 2 and otherwise unchanged |
| Pipeline.NoPriceReachesFilter | script.py:10-57 | no later step introduces a `price` column |
| Pipeline.CurrencyRaising | script.py:23-57 | the comparison raises on the converted price column exactly when some stripped cell does not parse and there is a row |
| Pipeline.CleanFailsExactly | script.py:8-76 | the cleaner raises exactly when the input's price column survives step 1 and one of its cells, without `$` and `,`, does not read as a float |
| Pipeline.CleanWithoutPrice | script.py:8-76 | a frame without a price column is always cleaned |
| Pipeline.CappedAfterFilter | script.py:56-57 | after step 5 every price is a number ≤ 2000 |
| Pipeline.CappedAfterImpute | script.py:59-71 | steps 6-8 keep every price a number ≤ 2000 |
| Pipeline.CappedAfterNumericFill | script.py:59-63 | the median fill leaves a capped price column as it was |
| Pipeline.CappedAfterTextFill | script.py:64-67 | the `"Unknown"` fill leaves a capped price column as it was |
| Pipeline.CappedAfterSuperhost | script.py:69-71 | the superhost encoding leaves a capped price column as it was |
| Pipeline.CleanPriceCapped | script.py:8-76 | every price of the cleaned frame is a number ≤ 2000 |
| Pipeline.ImputeSettles | script.py:59-71 | after steps 6-8 no object column has a missing cell; every numeric column other than `host_is_superhost` is complete or has no value |
| Pipeline.CleanSettled | script.py:8-76 | the same holds of the cleaned frame |
| Cleaner.DataFrame.constructor | script.py:15 | the new frame holds the selected table |
| Cleaner.DataFrame.ReplaceColumn | script.py:70-71 | `if name in df.columns: df[name] = op(df[name])` converts the column with that label and nothing else |
| Cleaner.DataFrame.ApplyToNamed | script.py:18-20 | the loop over labels converts exactly the listed columns that exist and keeps the frame well formed |
| Cleaner.DataFrame.DropColumns | script.py:47 | the in-place drop leaves exactly the unlisted columns and keeps a valid frame valid |
| Cleaner.DataFrame.ExpandAmenities | script.py:26-47 | appending the count columns and dropping the amenities columns in place is step 3 |
| Cleaner.DataFrame.FilterPriceOutliers | script.py:56-57 | rebinding the frame to the masked rows is step 5, and it reports the TypeError, leaving the frame valid and as it was |
| Cleaner.CleanAirbnbData | script.py:8-76 | running the steps in place on a fresh frame has the outcome of `Pipeline.Clean`, and the caller's frame is not changed |
| Scenarios.StripCentsExample | script.py:21-22 | `"$1,200.50"` is cleaned to `"1200.50"` |
| Scenarios.StripWholeExample | script.py:21-22 | `"$2,500"` is cleaned to `"2500"` |
| Scenarios.PriceFilterExample | script.py:18-57 | of two listings priced `"$1,200.50"` and `"$2,500"`, steps 2 and 5 keep only the first, its price now the number 1200.5 |
| Scenarios.RoundTripsExample | script.py:18-23 | a column and an environment for which the round-trip condition of `Currency.CleanCurrencyIdempotent` holds, and which step 2 converts to numbers |
| Scenarios.CleanTwoAmenities | script.py:28-31 | a listing of two quoted amenities loses its braces and quotes and is lower-cased |
| Scenarios.AmenitiesTokensExample | script.py:28-36 | `{"Wifi", "Air conditioning"}` yields the tokens `wifi` and `air conditioning` |
| Scenarios.AmenitiesCountsExample | script.py:39-41 | that row has 1 in `amen_wifi` and `amen_air conditioning` and 0 in every other count column |
| Scenarios.FillMedianExample | script.py:62 | `[10, missing, 30]` becomes `[10, 20, 30]` |
| Scenarios.FillMiddleGap | script.py:59-63 | in a three-cell column with a gap in the middle, the gap takes the median of the values present and the other cells stay |
| Scenarios.SuperhostExample | script.py:71 | `"t"`, missing, `"f"`, `"yes"` map to 1, 0, 0, missing |

## Left out

- Reading `train.csv` and `test.csv`, `print(df.head())`, the call at module level and the unused imports (script.py:1-6, 74, 78) are I/O or plumbing. `testing_df` is never cleaned, so there is nothing to model for it.
- Float parsing, float rendering and date parsing are the parameters `Env.parseFloat`, `Env.render` and `Env.parseDate`. Step 4 is modelled only as a per-cell map through `Env.parseDate`.
- Numbers are exact reals. Rounding, infinities and the float64 arithmetic of the median are not modelled.
- dtypes are given data (`Kind`). How pandas infers them, and their further subdivision (int, bool, float), is not modelled.
- The chained assignment of `df[col].fillna(..., inplace=True)` is modelled as the intended replacement of the column, whatever the pandas version's copy semantics do.
- Stages 3(a) and 3(b) compute the columns `amenities_clean` and `amenities_list`, which step 3 drops again. The model computes the token lists directly from `amenities` and does not add those two columns to the frame. The output is the same, because step 3 drops both columns again.
- Strings.Lower: only ASCII letters are lower-cased, because Unicode case mapping is not modelled.
- Frame.WellFormed: column labels are assumed unique, because `read_csv` renames duplicate headers and the model has no duplicate-label frames.
- Amenities.ExpandAmenities: when the frame has an `amenities` column, it requires that no surviving column other than the three amenities columns already carries an `amen_` label (`IndicatorLabelsFree`). Otherwise `pd.concat` would create duplicate labels, which the model does not represent. Without an `amenities` column nothing is required.
- Pipeline.Clean: it carries the same requirement on its input, and applies it whenever the input has an `amenities` column, even if step 1 then drops that column.
- Cleaner.CleanAirbnbData: it carries the same requirement on its input frame.
- Rows are positions, and the row index is not modelled. Step 3 lines the summed dummies up with the rows by index label, with `groupby(level=0)` at script.py:41 and `concat(axis=1)` at script.py:44. Lining them up by position is the same only because `read_csv` gives a frame the unique index 0, 1, 2, and so on, and steps 1 and 2 keep it.
- Amenities.DropNamed: `drop(columns=...)` raises a KeyError for a label that is not present, while the model skips it. The cleaner cannot reach that case, because step 3 creates `amenities_clean` and `amenities_list` and only runs when `amenities` exists.
